/** The field with 256 elements of `src/core/schemes/mcore/src/share.rs`, with the tables of the source:
    powers of 3 modulo x^8 + x^4 + x^3 + x + 1, and their logarithms.  The tables are written as
    decision trees, so that a table look-up is a case distinction. */
module Gf256 {
  import opened Fields
  import opened LogTables

  /** `PTAB`. */
  function Ptab(i: int): bv8 {
    if i < 128 then
      if i < 64 then
        if i < 32 then
          if i < 16 then
            if i < 8 then
              if i < 4 then (if i < 2 then (if i < 1 then 1 else 3) else (if i < 3 then 5 else 15))
                else (if i < 6 then (if i < 5 then 17 else 51) else (if i < 7 then 85 else 255)) else
              if i < 12 then (if i < 10 then (if i < 9 then 26 else 46) else (if i < 11 then 114 else 150))
                else (if i < 14 then (if i < 13 then 161 else 248) else (if i < 15 then 19 else 53)) else
            if i < 24 then
              if i < 20 then (if i < 18 then (if i < 17 then 95 else 225) else (if i < 19 then 56 else 72))
                else (if i < 22 then (if i < 21 then 216 else 115) else (if i < 23 then 149 else 164)) else
              if i < 28 then (if i < 26 then (if i < 25 then 247 else 2) else (if i < 27 then 6 else 10))
                else (if i < 30 then (if i < 29 then 30 else 34) else (if i < 31 then 102 else 170)) else
          if i < 48 then
            if i < 40 then
              if i < 36 then (if i < 34 then (if i < 33 then 229 else 52) else (if i < 35 then 92 else 228))
                else (if i < 38 then (if i < 37 then 55 else 89) else (if i < 39 then 235 else 38)) else
              if i < 44 then (if i < 42 then (if i < 41 then 106 else 190) else (if i < 43 then 217 else 112))
                else (if i < 46 then (if i < 45 then 144 else 171) else (if i < 47 then 230 else 49)) else
            if i < 56 then
              if i < 52 then (if i < 50 then (if i < 49 then 83 else 245) else (if i < 51 then 4 else 12))
                else (if i < 54 then (if i < 53 then 20 else 60) else (if i < 55 then 68 else 204)) else
              if i < 60 then (if i < 58 then (if i < 57 then 79 else 209) else (if i < 59 then 104 else 184))
                else (if i < 62 then (if i < 61 then 211 else 110) else (if i < 63 then 178 else 205)) else
        if i < 96 then
          if i < 80 then
            if i < 72 then
              if i < 68 then (if i < 66 then (if i < 65 then 76 else 212) else (if i < 67 then 103 else 169))
                else (if i < 70 then (if i < 69 then 224 else 59) else (if i < 71 then 77 else 215)) else
              if i < 76 then (if i < 74 then (if i < 73 then 98 else 166) else (if i < 75 then 241 else 8))
                else (if i < 78 then (if i < 77 then 24 else 40) else (if i < 79 then 120 else 136)) else
            if i < 88 then
              if i < 84 then (if i < 82 then (if i < 81 then 131 else 158) else (if i < 83 then 185 else 208))
                else (if i < 86 then (if i < 85 then 107 else 189) else (if i < 87 then 220 else 127)) else
              if i < 92 then (if i < 90 then (if i < 89 then 129 else 152) else (if i < 91 then 179 else 206))
                else (if i < 94 then (if i < 93 then 73 else 219) else (if i < 95 then 118 else 154)) else
          if i < 112 then
            if i < 104 then
              if i < 100 then (if i < 98 then (if i < 97 then 181 else 196) else (if i < 99 then 87 else 249))
                else (if i < 102 then (if i < 101 then 16 else 48) else (if i < 103 then 80 else 240)) else
              if i < 108 then (if i < 106 then (if i < 105 then 11 else 29) else (if i < 107 then 39 else 105))
                else (if i < 110 then (if i < 109 then 187 else 214) else (if i < 111 then 97 else 163)) else
            if i < 120 then
              if i < 116 then (if i < 114 then (if i < 113 then 254 else 25) else (if i < 115 then 43 else 125))
                else (if i < 118 then (if i < 117 then 135 else 146) else (if i < 119 then 173 else 236)) else
              if i < 124 then (if i < 122 then (if i < 121 then 47 else 113) else (if i < 123 then 147 else 174))
                else (if i < 126 then (if i < 125 then 233 else 32) else (if i < 127 then 96 else 160)) else
      if i < 192 then
        if i < 160 then
          if i < 144 then
            if i < 136 then
              if i < 132 then (if i < 130 then (if i < 129 then 251 else 22) else (if i < 131 then 58 else 78))
                else (if i < 134 then (if i < 133 then 210 else 109) else (if i < 135 then 183 else 194)) else
              if i < 140 then (if i < 138 then (if i < 137 then 93 else 231) else (if i < 139 then 50 else 86))
                else (if i < 142 then (if i < 141 then 250 else 21) else (if i < 143 then 63 else 65)) else
            if i < 152 then
              if i < 148 then (if i < 146 then (if i < 145 then 195 else 94) else (if i < 147 then 226 else 61))
                else (if i < 150 then (if i < 149 then 71 else 201) else (if i < 151 then 64 else 192)) else
              if i < 156 then (if i < 154 then (if i < 153 then 91 else 237) else (if i < 155 then 44 else 116))
                else (if i < 158 then (if i < 157 then 156 else 191) else (if i < 159 then 218 else 117)) else
          if i < 176 then
            if i < 168 then
              if i < 164 then (if i < 162 then (if i < 161 then 159 else 186) else (if i < 163 then 213 else 100))
                else (if i < 166 then (if i < 165 then 172 else 239) else (if i < 167 then 42 else 126)) else
              if i < 172 then (if i < 170 then (if i < 169 then 130 else 157) else (if i < 171 then 188 else 223))
                else (if i < 174 then (if i < 173 then 122 else 142) else (if i < 175 then 137 else 128)) else
            if i < 184 then
              if i < 180 then (if i < 178 then (if i < 177 then 155 else 182) else (if i < 179 then 193 else 88))
                else (if i < 182 then (if i < 181 then 232 else 35) else (if i < 183 then 101 else 175)) else
              if i < 188 then (if i < 186 then (if i < 185 then 234 else 37) else (if i < 187 then 111 else 177))
                else (if i < 190 then (if i < 189 then 200 else 67) else (if i < 191 then 197 else 84)) else
        if i < 224 then
          if i < 208 then
            if i < 200 then
              if i < 196 then (if i < 194 then (if i < 193 then 252 else 31) else (if i < 195 then 33 else 99))
                else (if i < 198 then (if i < 197 then 165 else 244) else (if i < 199 then 7 else 9)) else
              if i < 204 then (if i < 202 then (if i < 201 then 27 else 45) else (if i < 203 then 119 else 153))
                else (if i < 206 then (if i < 205 then 176 else 203) else (if i < 207 then 70 else 202)) else
            if i < 216 then
              if i < 212 then (if i < 210 then (if i < 209 then 69 else 207) else (if i < 211 then 74 else 222))
                else (if i < 214 then (if i < 213 then 121 else 139) else (if i < 215 then 134 else 145)) else
              if i < 220 then (if i < 218 then (if i < 217 then 168 else 227) else (if i < 219 then 62 else 66))
                else (if i < 222 then (if i < 221 then 198 else 81) else (if i < 223 then 243 else 14)) else
          if i < 240 then
            if i < 232 then
              if i < 228 then (if i < 226 then (if i < 225 then 18 else 54) else (if i < 227 then 90 else 238))
                else (if i < 230 then (if i < 229 then 41 else 123) else (if i < 231 then 141 else 140)) else
              if i < 236 then (if i < 234 then (if i < 233 then 143 else 138) else (if i < 235 then 133 else 148))
                else (if i < 238 then (if i < 237 then 167 else 242) else (if i < 239 then 13 else 23)) else
            if i < 248 then
              if i < 244 then (if i < 242 then (if i < 241 then 57 else 75) else (if i < 243 then 221 else 124))
                else (if i < 246 then (if i < 245 then 132 else 151) else (if i < 247 then 162 else 253)) else
              if i < 252 then (if i < 250 then (if i < 249 then 28 else 36) else (if i < 251 then 108 else 180))
                else (if i < 254 then (if i < 253 then 199 else 82) else (if i < 255 then 246 else 1))
  }

  /** `LTAB`, indexed by a byte. */
  function Ltab(i: bv8): int {
    if i < 128 then
      if i < 64 then
        if i < 32 then
          if i < 16 then
            if i < 8 then
              if i < 4 then (if i < 2 then (if i < 1 then 0 else 255) else (if i < 3 then 25 else 1))
                else (if i < 6 then (if i < 5 then 50 else 2) else (if i < 7 then 26 else 198)) else
              if i < 12 then (if i < 10 then (if i < 9 then 75 else 199) else (if i < 11 then 27 else 104))
                else (if i < 14 then (if i < 13 then 51 else 238) else (if i < 15 then 223 else 3)) else
            if i < 24 then
              if i < 20 then (if i < 18 then (if i < 17 then 100 else 4) else (if i < 19 then 224 else 14))
                else (if i < 22 then (if i < 21 then 52 else 141) else (if i < 23 then 129 else 239)) else
              if i < 28 then (if i < 26 then (if i < 25 then 76 else 113) else (if i < 27 then 8 else 200))
                else (if i < 30 then (if i < 29 then 248 else 105) else (if i < 31 then 28 else 193)) else
          if i < 48 then
            if i < 40 then
              if i < 36 then (if i < 34 then (if i < 33 then 125 else 194) else (if i < 35 then 29 else 181))
                else (if i < 38 then (if i < 37 then 249 else 185) else (if i < 39 then 39 else 106)) else
              if i < 44 then (if i < 42 then (if i < 41 then 77 else 228) else (if i < 43 then 166 else 114))
                else (if i < 46 then (if i < 45 then 154 else 201) else (if i < 47 then 9 else 120)) else
            if i < 56 then
              if i < 52 then (if i < 50 then (if i < 49 then 101 else 47) else (if i < 51 then 138 else 5))
                else (if i < 54 then (if i < 53 then 33 else 15) else (if i < 55 then 225 else 36)) else
              if i < 60 then (if i < 58 then (if i < 57 then 18 else 240) else (if i < 59 then 130 else 69))
                else (if i < 62 then (if i < 61 then 53 else 147) else (if i < 63 then 218 else 142)) else
        if i < 96 then
          if i < 80 then
            if i < 72 then
              if i < 68 then (if i < 66 then (if i < 65 then 150 else 143) else (if i < 67 then 219 else 189))
                else (if i < 70 then (if i < 69 then 54 else 208) else (if i < 71 then 206 else 148)) else
              if i < 76 then (if i < 74 then (if i < 73 then 19 else 92) else (if i < 75 then 210 else 241))
                else (if i < 78 then (if i < 77 then 64 else 70) else (if i < 79 then 131 else 56)) else
            if i < 88 then
              if i < 84 then (if i < 82 then (if i < 81 then 102 else 221) else (if i < 83 then 253 else 48))
                else (if i < 86 then (if i < 85 then 191 else 6) else (if i < 87 then 139 else 98)) else
              if i < 92 then (if i < 90 then (if i < 89 then 179 else 37) else (if i < 91 then 226 else 152))
                else (if i < 94 then (if i < 93 then 34 else 136) else (if i < 95 then 145 else 16)) else
          if i < 112 then
            if i < 104 then
              if i < 100 then (if i < 98 then (if i < 97 then 126 else 110) else (if i < 99 then 72 else 195))
                else (if i < 102 then (if i < 101 then 163 else 182) else (if i < 103 then 30 else 66)) else
              if i < 108 then (if i < 106 then (if i < 105 then 58 else 107) else (if i < 107 then 40 else 84))
                else (if i < 110 then (if i < 109 then 250 else 133) else (if i < 111 then 61 else 186)) else
            if i < 120 then
              if i < 116 then (if i < 114 then (if i < 113 then 43 else 121) else (if i < 115 then 10 else 21))
                else (if i < 118 then (if i < 117 then 155 else 159) else (if i < 119 then 94 else 202)) else
              if i < 124 then (if i < 122 then (if i < 121 then 78 else 212) else (if i < 123 then 172 else 229))
                else (if i < 126 then (if i < 125 then 243 else 115) else (if i < 127 then 167 else 87)) else
      if i < 192 then
        if i < 160 then
          if i < 144 then
            if i < 136 then
              if i < 132 then (if i < 130 then (if i < 129 then 175 else 88) else (if i < 131 then 168 else 80))
                else (if i < 134 then (if i < 133 then 244 else 234) else (if i < 135 then 214 else 116)) else
              if i < 140 then (if i < 138 then (if i < 137 then 79 else 174) else (if i < 139 then 233 else 213))
                else (if i < 142 then (if i < 141 then 231 else 230) else (if i < 143 then 173 else 232)) else
            if i < 152 then
              if i < 148 then (if i < 146 then (if i < 145 then 44 else 215) else (if i < 147 then 117 else 122))
                else (if i < 150 then (if i < 149 then 235 else 22) else (if i < 151 then 11 else 245)) else
              if i < 156 then (if i < 154 then (if i < 153 then 89 else 203) else (if i < 155 then 95 else 176))
                else (if i < 158 then (if i < 157 then 156 else 169) else (if i < 159 then 81 else 160)) else
          if i < 176 then
            if i < 168 then
              if i < 164 then (if i < 162 then (if i < 161 then 127 else 12) else (if i < 163 then 246 else 111))
                else (if i < 166 then (if i < 165 then 23 else 196) else (if i < 167 then 73 else 236)) else
              if i < 172 then (if i < 170 then (if i < 169 then 216 else 67) else (if i < 171 then 31 else 45))
                else (if i < 174 then (if i < 173 then 164 else 118) else (if i < 175 then 123 else 183)) else
            if i < 184 then
              if i < 180 then (if i < 178 then (if i < 177 then 204 else 187) else (if i < 179 then 62 else 90))
                else (if i < 182 then (if i < 181 then 251 else 96) else (if i < 183 then 177 else 134)) else
              if i < 188 then (if i < 186 then (if i < 185 then 59 else 82) else (if i < 187 then 161 else 108))
                else (if i < 190 then (if i < 189 then 170 else 85) else (if i < 191 then 41 else 157)) else
        if i < 224 then
          if i < 208 then
            if i < 200 then
              if i < 196 then (if i < 194 then (if i < 193 then 151 else 178) else (if i < 195 then 135 else 144))
                else (if i < 198 then (if i < 197 then 97 else 190) else (if i < 199 then 220 else 252)) else
              if i < 204 then (if i < 202 then (if i < 201 then 188 else 149) else (if i < 203 then 207 else 205))
                else (if i < 206 then (if i < 205 then 55 else 63) else (if i < 207 then 91 else 209)) else
            if i < 216 then
              if i < 212 then (if i < 210 then (if i < 209 then 83 else 57) else (if i < 211 then 132 else 60))
                else (if i < 214 then (if i < 213 then 65 else 162) else (if i < 215 then 109 else 71)) else
              if i < 220 then (if i < 218 then (if i < 217 then 20 else 42) else (if i < 219 then 158 else 93))
                else (if i < 222 then (if i < 221 then 86 else 242) else (if i < 223 then 211 else 171)) else
          if i < 240 then
            if i < 232 then
              if i < 228 then (if i < 226 then (if i < 225 then 68 else 17) else (if i < 227 then 146 else 217))
                else (if i < 230 then (if i < 229 then 35 else 32) else (if i < 231 then 46 else 137)) else
              if i < 236 then (if i < 234 then (if i < 233 then 180 else 124) else (if i < 235 then 184 else 38))
                else (if i < 238 then (if i < 237 then 119 else 153) else (if i < 239 then 227 else 165)) else
            if i < 248 then
              if i < 244 then (if i < 242 then (if i < 241 then 103 else 74) else (if i < 243 then 237 else 222))
                else (if i < 246 then (if i < 245 then 197 else 49) else (if i < 247 then 254 else 24)) else
              if i < 252 then (if i < 250 then (if i < 249 then 13 else 99) else (if i < 251 then 140 else 128))
                else (if i < 254 then (if i < 253 then 192 else 247) else (if i < 255 then 112 else 7))
  }

  /** Multiplication by the generator 3. */
  function Triple(y: bv8): bv8 {
    y ^ (y << 1) ^ (if y & 128 == 128 then 27 else 0)
  }

  // ----- what the tables satisfy, row by row

  lemma Powers0(i: int)
    requires 0 <= i < 32
    ensures Ptab(i + 1) == Triple(Ptab(i))
  {
  }

  lemma Powers1(i: int)
    requires 32 <= i < 64
    ensures Ptab(i + 1) == Triple(Ptab(i))
  {
  }

  lemma Powers2(i: int)
    requires 64 <= i < 96
    ensures Ptab(i + 1) == Triple(Ptab(i))
  {
  }

  lemma Powers3(i: int)
    requires 96 <= i < 128
    ensures Ptab(i + 1) == Triple(Ptab(i))
  {
  }

  lemma Powers4(i: int)
    requires 128 <= i < 160
    ensures Ptab(i + 1) == Triple(Ptab(i))
  {
  }

  lemma Powers5(i: int)
    requires 160 <= i < 192
    ensures Ptab(i + 1) == Triple(Ptab(i))
  {
  }

  lemma Powers6(i: int)
    requires 192 <= i < 224
    ensures Ptab(i + 1) == Triple(Ptab(i))
  {
  }

  lemma Powers7(i: int)
    requires 224 <= i < 255
    ensures Ptab(i + 1) == Triple(Ptab(i))
  {
  }

  lemma Logs0(i: bv8)
    requires 1 <= i < 64
    ensures 1 <= Ltab(i) <= 255 && Ptab(Ltab(i)) == i
  {
  }

  lemma Logs1(i: bv8)
    requires 64 <= i < 128
    ensures 1 <= Ltab(i) <= 255 && Ptab(Ltab(i)) == i
  {
  }

  lemma Logs2(i: bv8)
    requires 128 <= i < 192
    ensures 1 <= Ltab(i) <= 255 && Ptab(Ltab(i)) == i
  {
  }

  lemma Logs3(i: bv8)
    requires 192 <= i
    ensures 1 <= Ltab(i) <= 255 && Ptab(Ltab(i)) == i
  {
  }

  lemma TableOfPowers(i: int)
    requires 0 <= i < 255
    ensures Ptab(i + 1) == Triple(Ptab(i))
  {
    if i < 128 {
      if i < 64 {
        if i < 32 {
          Powers0(i);
        } else {
          Powers1(i);
        }
      } else {
        if i < 96 {
          Powers2(i);
        } else {
          Powers3(i);
        }
      }
    } else {
      if i < 192 {
        if i < 160 {
          Powers4(i);
        } else {
          Powers5(i);
        }
      } else {
        if i < 224 {
          Powers6(i);
        } else {
          Powers7(i);
        }
      }
    }
  }

  /** Every byte but zero is the power that its logarithm says. */
  lemma TableOfLogs(i: bv8)
    requires i != 0
    ensures 1 <= Ltab(i) <= 255 && Ptab(Ltab(i)) == i
  {
    if i < 128 {
      if i < 64 {
        Logs0(i);
      } else {
        Logs1(i);
      }
    } else {
      if i < 192 {
        Logs2(i);
      } else {
        Logs3(i);
      }
    }
  }

  // ----- the field

  /** `add`. */
  function Add(x: bv8, y: bv8): bv8 {
    x ^ y
  }

  /** Multiplication by the generator is linear. */
  lemma TripleLinear(a: bv8, b: bv8)
    ensures Triple(Add(a, b)) == Add(Triple(a), Triple(b))
  {
    var c := a ^ b;
    if a & 128 == 128 {
      if b & 128 == 128 {
        assert c & 128 == 0;
      } else {
        assert c & 128 == 128;
      }
    } else {
      if b & 128 == 128 {
        assert c & 128 == 128;
      } else {
        assert c & 128 == 0;
      }
    }
  }

  function ByteTables(): Tables<bv8> {
    Tables(seq(256, i => Ptab(i)), (x: bv8) => Ltab(x), 0, (x: bv8, y: bv8) => Add(x, y), (y: bv8) => Triple(y))
  }

  lemma XorLaws(a: bv8, b: bv8, c: bv8)
    ensures Add(Add(a, b), c) == Add(a, Add(b, c)) && Add(a, b) == Add(b, a) && Add(a, 0) == a && Add(a, a) == 0
  {
  }

  lemma EndsOfTable()
    ensures Ptab(0) == 1 && Ptab(255) == 1
  {
  }

  lemma PowersValid(t: Tables<bv8>, i: int)
    requires t == ByteTables()
    ensures t.PowerAt(i)
  {
    if 0 <= i < 255 {
      TableOfPowers(i);
    }
  }

  lemma LogsValid(t: Tables<bv8>, x: bv8)
    requires t == ByteTables()
    ensures t.LogOf(x)
  {
    if x != 0 {
      TableOfLogs(x);
    }
  }

  lemma Applied(t: Tables<bv8>, a: bv8, b: bv8)
    requires t == ByteTables()
    ensures t.add(a, b) == Add(a, b) && t.step(a) == Triple(a) && t.step(b) == Triple(b) && t.zero == 0
  {
  }

  lemma StepValid(t: Tables<bv8>, a: bv8, b: bv8)
    requires t == ByteTables()
    ensures t.StepSum(a, b)
  {
    TripleLinear(a, b);
    Applied(t, a, b);
    Applied(t, Triple(a), Triple(b));
    Applied(t, Add(a, b), b);
  }

  lemma SumsValid(t: Tables<bv8>, a: bv8, b: bv8, c: bv8)
    requires t == ByteTables()
    ensures t.Sums(a, b, c)
  {
    XorLaws(a, b, c);
    Applied(t, a, b);
    Applied(t, b, a);
    Applied(t, b, c);
    Applied(t, Add(a, b), c);
    Applied(t, a, Add(b, c));
    Applied(t, a, 0);
    Applied(t, a, a);
  }

  lemma EndsValid(t: Tables<bv8>)
    requires t == ByteTables()
    ensures |t.power| == 256 && t.power[255] == t.power[0] && t.power[0] == 1 && t.zero == 0
  {
    EndsOfTable();
  }

  /** The tables of the source are valid. */
  lemma ByteTablesValid(t: Tables<bv8>)
    requires t == ByteTables()
    ensures t.Valid() && t.One() == 1 && t.zero == 0
  {
    EndsValid(t);
    forall i ensures t.PowerAt(i) {
      PowersValid(t, i);
    }
    forall x ensures t.LogOf(x) {
      LogsValid(t, x);
    }
    forall a, b ensures t.StepSum(a, b) {
      StepValid(t, a, b);
    }
    forall a, b, c ensures t.Sums(a, b, c) {
      SumsValid(t, a, b, c);
    }
  }

  /** The bytes, with exclusive or and the table multiplication. */
  function Bytes(): Field<bv8> {
    TableField(ByteTables())
  }

  lemma BytesLawful()
    ensures Bytes().Lawful()
  {
    ByteTablesValid(ByteTables());
    TableFieldLawful(ByteTables());
  }
}
