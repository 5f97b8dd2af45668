/** The tables of roots of `src/core/schemes/mcore/src/nhs.rs`, and the proof that they are what the transforms need:
    a tree of square roots that starts at minus one, and its inverses.  The tables are written as decision trees, so
    that a look-up is a case distinction. */
module NttTables {
  import opened Residues
  import opened LazyNtt
  import opened NegacyclicNtt

  /** `ROOTS`. */
  function Root(k: int): int {
    if k < 512 then
     if k < 256 then
      if k < 128 then
       if k < 64 then
        if k < 32 then
         if k < 16 then
          if k < 8 then
           if k < 4 then if k < 2 then (if k < 1 then 10952 else 11183) else (if k < 3 then 10651 else 1669)
           else if k < 6 then (if k < 5 then 12036 else 5517) else (if k < 7 then 11593 else 9397)
          else
           if k < 12 then if k < 10 then (if k < 9 then 7900 else 2739) else (if k < 11 then 10901 else 589)
           else if k < 14 then (if k < 13 then 971 else 1704) else (if k < 15 then 4857 else 5562)
         else
          if k < 24 then
           if k < 20 then if k < 18 then (if k < 17 then 6241 else 10889) else (if k < 19 then 7260 else 3046)
           else if k < 22 then (if k < 21 then 3102 else 8228) else (if k < 23 then 519 else 6606)
          else
           if k < 28 then if k < 26 then (if k < 25 then 10000 else 5956) else (if k < 27 then 6332 else 11479)
           else if k < 30 then (if k < 29 then 918 else 6357) else (if k < 31 then 7237 else 196)
        else
         if k < 48 then
          if k < 40 then
           if k < 36 then if k < 34 then (if k < 33 then 8614 else 3587) else (if k < 35 then 11068 else 11665)
           else if k < 38 then (if k < 37 then 3165 else 1074) else (if k < 39 then 8124 else 3246)
          else
           if k < 44 then if k < 42 then (if k < 41 then 9490 else 10617) else (if k < 43 then 946 else 1812)
           else if k < 46 then (if k < 45 then 2862 else 6807) else (if k < 47 then 6659 else 7117)
         else
          if k < 56 then
           if k < 52 then if k < 50 then (if k < 49 then 8726 else 9985) else (if k < 51 then 10 else 9788)
           else if k < 54 then (if k < 53 then 4473 else 8204) else (if k < 55 then 11528 else 7220)
          else
           if k < 60 then if k < 58 then (if k < 57 then 657 else 11417) else (if k < 59 then 10842 else 1827)
           else if k < 62 then (if k < 61 then 2845 else 7372) else (if k < 63 then 8118 else 12120)
       else
        if k < 96 then
         if k < 80 then
          if k < 72 then
           if k < 68 then if k < 66 then (if k < 65 then 11262 else 7386) else (if k < 67 then 672 else 1521)
           else if k < 70 then (if k < 69 then 734 else 8135) else (if k < 71 then 7848 else 5913)
          else
           if k < 76 then if k < 74 then (if k < 73 then 12199 else 10220) else (if k < 75 then 8447 else 4800)
           else if k < 78 then (if k < 77 then 6849 else 8754) else (if k < 79 then 12187 else 3390)
         else
          if k < 88 then
           if k < 84 then if k < 82 then (if k < 81 then 10989 else 5616) else (if k < 83 then 4584 else 3792)
           else if k < 86 then (if k < 85 then 618 else 7653) else (if k < 87 then 2623 else 3907)
          else
           if k < 92 then if k < 90 then (if k < 89 then 3775 else 8270) else (if k < 91 then 2759 else 11676)
           else if k < 94 then (if k < 93 then 1514 else 9681) else (if k < 95 then 182 else 1180)
        else
         if k < 112 then
          if k < 104 then
           if k < 100 then if k < 98 then (if k < 97 then 2453 else 9557) else (if k < 99 then 9954 else 256)
           else if k < 102 then (if k < 101 then 6264 else 1450) else (if k < 103 then 11792 else 10012)
          else
           if k < 108 then if k < 106 then (if k < 105 then 203 else 6988) else (if k < 107 then 12216 else 9655)
           else if k < 110 then (if k < 109 then 5443 else 11387) else (if k < 111 then 9242 else 8739)
         else
          if k < 120 then
           if k < 116 then if k < 114 then (if k < 113 then 8394 else 9453) else (if k < 115 then 311 else 7013)
           else if k < 118 then (if k < 117 then 7618 else 1991) else (if k < 119 then 11971 else 3340)
          else
           if k < 124 then if k < 122 then (if k < 121 then 4457 else 7290) else (if k < 123 then 7841 else 3977)
           else if k < 126 then (if k < 125 then 8601 else 10525) else (if k < 127 then 4232 else 8262)
      else
       if k < 192 then
        if k < 160 then
         if k < 144 then
          if k < 136 then
           if k < 132 then if k < 130 then (if k < 129 then 9581 else 11207) else (if k < 131 then 11931 else 1055)
           else if k < 134 then (if k < 133 then 6997 else 11064) else (if k < 135 then 208 else 11882)
          else
           if k < 140 then if k < 138 then (if k < 137 then 5973 else 1724) else (if k < 139 then 10020 else 954)
           else if k < 142 then (if k < 141 then 8750 else 11356) else (if k < 143 then 11685 else 8508)
         else
          if k < 152 then
           if k < 148 then if k < 146 then (if k < 145 then 4350 else 5786) else (if k < 147 then 5458 else 1491)
           else if k < 150 then (if k < 149 then 768 else 7005) else (if k < 151 then 4930 else 8196)
          else
           if k < 156 then if k < 154 then (if k < 153 then 9583 else 8249) else (if k < 155 then 1639 else 9141)
           else if k < 158 then (if k < 157 then 4387 else 219) else (if k < 159 then 11680 else 3614)
        else
         if k < 176 then
          if k < 168 then
           if k < 164 then if k < 162 then (if k < 161 then 12116 else 10087) else (if k < 163 then 5450 else 1034)
           else if k < 166 then (if k < 165 then 4563 else 10273) else (if k < 167 then 3081 else 2420)
          else
           if k < 172 then if k < 170 then (if k < 169 then 1684 else 4031) else (if k < 171 then 10170 else 306)
           else if k < 174 then (if k < 173 then 2111 else 11526) else (if k < 175 then 270 else 6207)
         else
          if k < 184 then
           if k < 180 then if k < 178 then (if k < 177 then 10670 else 10435) else (if k < 179 then 11721 else 4420)
           else if k < 182 then (if k < 181 then 11376 else 10826) else (if k < 183 then 3900 else 7730)
          else
           if k < 188 then if k < 186 then (if k < 185 then 4465 else 7747) else (if k < 187 then 3540 else 11743)
           else if k < 190 then (if k < 189 then 10450 else 4012) else (if k < 191 then 964 else 12057)
       else
        if k < 224 then
         if k < 208 then
          if k < 200 then
           if k < 196 then if k < 194 then (if k < 193 then 4262 else 759) else (if k < 195 then 3613 else 2088)
           else if k < 198 then (if k < 197 then 5007 else 4914) else (if k < 199 then 4011 else 3318)
          else
           if k < 204 then if k < 202 then (if k < 201 then 5112 else 9376) else (if k < 203 then 4397 else 10007)
           else if k < 206 then (if k < 205 then 1767 else 4164) else (if k < 207 then 878 else 4072)
         else
          if k < 216 then
           if k < 212 then if k < 210 then (if k < 209 then 106 else 2983) else (if k < 211 then 7529 else 10732)
           else if k < 214 then (if k < 213 then 9138 else 2798) else (if k < 215 then 5855 else 4200)
          else
           if k < 220 then if k < 218 then (if k < 217 then 6782 else 9535) else (if k < 219 then 588 else 2867)
           else if k < 222 then (if k < 221 then 9859 else 5582) else (if k < 223 then 6867 else 6710)
        else
         if k < 240 then
          if k < 232 then
           if k < 228 then if k < 226 then (if k < 225 then 3222 else 2794) else (if k < 227 then 9738 else 206)
           else if k < 230 then (if k < 229 then 10417 else 3663) else (if k < 231 then 11025 else 1528)
          else
           if k < 236 then if k < 234 then (if k < 233 then 8132 else 3703) else (if k < 235 then 9062 else 4601)
           else if k < 238 then (if k < 237 then 5436 else 9451) else (if k < 239 then 8397 else 5016)
         else
          if k < 248 then
           if k < 244 then if k < 242 then (if k < 241 then 34 else 11159) else (if k < 243 then 9371 else 2283)
           else if k < 246 then (if k < 245 then 4786 else 12259) else (if k < 247 then 10689 else 6912)
          else
           if k < 252 then if k < 250 then (if k < 249 then 9827 else 3754) else (if k < 251 then 11782 else 224)
           else if k < 254 then (if k < 253 then 5481 else 4341) else (if k < 255 then 10318 else 2616)
     else
      if k < 384 then
       if k < 320 then
        if k < 288 then
         if k < 272 then
          if k < 264 then
           if k < 260 then if k < 258 then (if k < 257 then 8221 else 7251) else (if k < 259 then 5761 else 8047)
           else if k < 262 then (if k < 261 then 12181 else 12264) else (if k < 263 then 2763 else 5760)
          else
           if k < 268 then if k < 266 then (if k < 265 then 6141 else 11321) else (if k < 267 then 5722 else 4283)
           else if k < 270 then (if k < 269 then 10712 else 9762) else (if k < 271 then 4502 else 2180)
         else
          if k < 280 then
           if k < 276 then if k < 274 then (if k < 273 then 10873 else 5134) else (if k < 275 then 11648 else 1786)
           else if k < 278 then (if k < 277 then 4530 else 9924) else (if k < 279 then 853 else 4180)
          else
           if k < 284 then if k < 282 then (if k < 281 then 10729 else 9197) else (if k < 283 then 3043 else 9466)
           else if k < 286 then (if k < 285 then 8115 else 4268) else (if k < 287 then 10521 else 9604)
        else
         if k < 304 then
          if k < 296 then
           if k < 292 then if k < 290 then (if k < 289 then 4260 else 3717) else (if k < 291 then 1616 else 6291)
           else if k < 294 then (if k < 293 then 7617 else 3470) else (if k < 295 then 4828 else 11586)
          else
           if k < 300 then if k < 298 then (if k < 297 then 10317 else 4095) else (if k < 299 then 9487 else 2765)
           else if k < 302 then (if k < 301 then 5059 else 1740) else (if k < 303 then 6777 else 4641)
         else
          if k < 312 then
           if k < 308 then if k < 306 then (if k < 305 then 9748 else 9994) else (if k < 307 then 490 else 341)
           else if k < 310 then (if k < 309 then 10264 else 8748) else (if k < 311 then 11867 else 9688)
          else
           if k < 316 then if k < 314 then (if k < 313 then 7615 else 6428) else (if k < 315 then 2831 else 3500)
           else if k < 318 then (if k < 317 then 4226 else 4847) else (if k < 319 then 4534 else 4008)
       else
        if k < 352 then
         if k < 336 then
          if k < 328 then
           if k < 324 then if k < 322 then (if k < 321 then 11122 else 5533) else (if k < 323 then 8350 else 795)
           else if k < 326 then (if k < 325 then 11388 else 5367) else (if k < 327 then 3593 else 7090)
          else
           if k < 332 then if k < 330 then (if k < 329 then 7879 else 9220) else (if k < 331 then 8366 else 1709)
           else if k < 334 then (if k < 333 then 3798 else 11120) else (if k < 335 then 7291 else 6353)
         else
          if k < 344 then
           if k < 340 then if k < 338 then (if k < 337 then 10034 else 4826) else (if k < 339 then 3414 else 1473)
           else if k < 342 then (if k < 341 then 5704 else 6327) else (if k < 343 then 5637 else 7108)
          else
           if k < 348 then if k < 346 then (if k < 345 then 640 else 11982) else (if k < 347 then 12 else 6830)
           else if k < 350 then (if k < 349 then 452 else 7387) else (if k < 351 then 8918 else 8664)
        else
         if k < 368 then
          if k < 360 then
           if k < 356 then if k < 354 then (if k < 353 then 9596 else 1311) else (if k < 355 then 8475 else 255)
           else if k < 358 then (if k < 357 then 12000 else 9605) else (if k < 359 then 225 else 11317)
          else
           if k < 364 then if k < 362 then (if k < 361 then 9947 else 10609) else (if k < 363 then 8712 else 6113)
           else if k < 366 then (if k < 365 then 8638 else 4958) else (if k < 367 then 10454 else 10385)
         else
          if k < 376 then
           if k < 372 then if k < 370 then (if k < 369 then 5769 else 8504) else (if k < 371 then 2950 else 11834)
           else if k < 374 then (if k < 373 then 4612 else 11536) else (if k < 375 then 8996 else 3903)
          else
           if k < 380 then if k < 378 then (if k < 377 then 9480 else 829) else (if k < 379 then 3250 else 10538)
           else if k < 382 then (if k < 381 then 3623 else 11876) else (if k < 383 then 10744 else 11590)
      else
       if k < 448 then
        if k < 416 then
         if k < 400 then
          if k < 392 then
           if k < 388 then if k < 386 then (if k < 385 then 2487 else 8427) else (if k < 387 then 7036 else 2539)
           else if k < 390 then (if k < 389 then 11050 else 1420) else (if k < 391 then 10192 else 4635)
          else
           if k < 396 then if k < 394 then (if k < 393 then 10030 else 10742) else (if k < 395 then 11709 else 9879)
           else if k < 398 then (if k < 397 then 10924 else 3439) else (if k < 399 then 7271 else 11355)
         else
          if k < 408 then
           if k < 404 then if k < 402 then (if k < 401 then 4237 else 867) else (if k < 403 then 9373 else 11614)
           else if k < 406 then (if k < 405 then 765 else 11442) else (if k < 407 then 8079 else 8356)
          else
           if k < 412 then if k < 410 then (if k < 409 then 2585 else 10953) else (if k < 411 then 6577 else 5505)
           else if k < 414 then (if k < 413 then 6050 else 10731) else (if k < 415 then 7026 else 5040)
        else
         if k < 432 then
          if k < 424 then
           if k < 420 then if k < 418 then (if k < 417 then 3812 else 2703) else (if k < 419 then 8981 else 1510)
           else if k < 422 then (if k < 421 then 2385 else 11817) else (if k < 423 then 3501 else 7979)
          else
           if k < 428 then if k < 426 then (if k < 425 then 8782 else 895) else (if k < 427 then 6770 else 2705)
           else if k < 430 then (if k < 429 then 5127 else 11769) else (if k < 431 then 941 else 9207)
         else
          if k < 440 then
           if k < 436 then if k < 434 then (if k < 433 then 6692 else 7466) else (if k < 435 then 9035 else 7667)
           else if k < 438 then (if k < 437 then 4419 else 2047) else (if k < 439 then 6765 else 10100)
          else
           if k < 444 then if k < 442 then (if k < 441 then 9872 else 10933) else (if k < 443 then 1414 else 10113)
           else if k < 446 then (if k < 445 then 8201 else 12253) else (if k < 447 then 10369 else 921)
       else
        if k < 480 then
         if k < 464 then
          if k < 456 then
           if k < 452 then if k < 450 then (if k < 449 then 12214 else 324) else (if k < 451 then 4991 else 4000)
           else if k < 454 then (if k < 453 then 11852 else 7295) else (if k < 455 then 12204 else 2825)
          else
           if k < 460 then if k < 458 then (if k < 457 then 4708 else 4731) else (if k < 459 then 6540 else 11072)
           else if k < 462 then (if k < 461 then 560 else 7412) else (if k < 463 then 6155 else 2904)
         else
          if k < 472 then
           if k < 468 then if k < 466 then (if k < 465 then 5194 else 10988) else (if k < 467 then 251 else 9730)
           else if k < 470 then (if k < 469 then 5358 else 1923) else (if k < 471 then 4248 else 9176)
          else
           if k < 476 then if k < 474 then (if k < 473 then 515 else 233) else (if k < 475 then 4234 else 5304)
           else if k < 478 then (if k < 477 then 3820 else 3160) else (if k < 479 then 4680 else 9276)
        else
         if k < 496 then
          if k < 488 then
           if k < 484 then if k < 482 then (if k < 481 then 10410 else 1727) else (if k < 483 then 10180 else 10094)
           else if k < 486 then (if k < 485 then 6584 else 7441) else (if k < 487 then 11798 else 1138)
          else
           if k < 492 then if k < 490 then (if k < 489 then 5220 else 9401) else (if k < 491 then 1634 else 4247)
           else if k < 494 then (if k < 493 then 8295 else 8406) else (if k < 495 then 5916 else 4)
         else
          if k < 504 then
           if k < 500 then if k < 498 then (if k < 497 then 1666 else 6075) else (if k < 499 then 4486 else 1266)
           else if k < 502 then (if k < 501 then 1023 else 10819) else (if k < 503 then 7623 else 6885)
          else
           if k < 508 then if k < 506 then (if k < 505 then 2252 else 11900) else (if k < 507 then 12024 else 10976)
           else if k < 510 then (if k < 509 then 10500 else 3796) else (if k < 511 then 1733 else 5294)
    else
     if k < 768 then
      if k < 640 then
       if k < 576 then
        if k < 544 then
         if k < 528 then
          if k < 520 then
           if k < 516 then if k < 514 then (if k < 513 then 2930 else 4547) else (if k < 515 then 823 else 11683)
           else if k < 518 then (if k < 517 then 10518 else 1752) else (if k < 519 then 7417 else 4334)
          else
           if k < 524 then if k < 522 then (if k < 521 then 6144 else 6884) else (if k < 523 then 2573 else 4123)
           else if k < 526 then (if k < 525 then 6797 else 11928) else (if k < 527 then 9421 else 2067)
         else
          if k < 536 then
           if k < 532 then if k < 530 then (if k < 529 then 6820 else 2489) else (if k < 531 then 1664 else 9033)
           else if k < 534 then (if k < 533 then 9425 else 8440) else (if k < 535 then 3633 else 9375)
          else
           if k < 540 then if k < 538 then (if k < 537 then 8555 else 4825) else (if k < 539 then 7457 else 6619)
           else if k < 542 then (if k < 541 then 6426 else 7632) else (if k < 543 then 1503 else 1372)
        else
         if k < 560 then
          if k < 552 then
           if k < 548 then if k < 546 then (if k < 545 then 11142 else 531) else (if k < 547 then 3742 else 7921)
           else if k < 550 then (if k < 549 then 9866 else 7518) else (if k < 551 then 7712 else 10433)
          else
           if k < 556 then if k < 554 then (if k < 553 then 4985 else 585) else (if k < 555 then 6622 else 395)
           else if k < 558 then (if k < 557 then 7745 else 10782) else (if k < 559 then 9746 else 663)
         else
          if k < 568 then
           if k < 564 then if k < 562 then (if k < 561 then 11926 else 8450) else (if k < 563 then 70 else 7071)
           else if k < 566 then (if k < 565 then 6733 else 8272) else (if k < 567 then 6962 else 1384)
          else
           if k < 572 then if k < 570 then (if k < 569 then 4599 else 6185) else (if k < 571 then 2160 else 500)
           else if k < 574 then (if k < 573 then 7626 else 2448) else (if k < 575 then 7670 else 11106)
       else
        if k < 608 then
         if k < 592 then
          if k < 584 then
           if k < 580 then if k < 578 then (if k < 577 then 5100 else 2546) else (if k < 579 then 4704 else 10647)
           else if k < 582 then (if k < 581 then 5138 else 7789) else (if k < 583 then 5780 else 4524)
          else
           if k < 588 then if k < 586 then (if k < 585 then 11659 else 10095) else (if k < 587 then 9973 else 9022)
           else if k < 590 then (if k < 589 then 11076 else 12122) else (if k < 591 then 11575 else 11441)
         else
          if k < 600 then
           if k < 596 then if k < 594 then (if k < 593 then 3189 else 2445) else (if k < 595 then 7510 else 1966)
           else if k < 598 then (if k < 597 then 4326 else 4415) else (if k < 599 then 6072 else 2771)
          else
           if k < 604 then if k < 602 then (if k < 601 then 1847 else 8734) else (if k < 603 then 7024 else 7998)
           else if k < 606 then (if k < 605 then 10598 else 6322) else (if k < 607 then 1274 else 8260)
        else
         if k < 624 then
          if k < 616 then
           if k < 612 then if k < 610 then (if k < 609 then 4882 else 5454) else (if k < 611 then 8233 else 1792)
           else if k < 614 then (if k < 613 then 6981 else 10150) else (if k < 615 then 8810 else 8639)
          else
           if k < 620 then if k < 618 then (if k < 617 then 1421 else 12049) else (if k < 619 then 11778 else 6140)
           else if k < 622 then (if k < 621 then 1234 else 5975) else (if k < 623 then 3249 else 12017)
         else
          if k < 632 then
           if k < 628 then if k < 626 then (if k < 625 then 9602 else 4726) else (if k < 627 then 2177 else 12224)
           else if k < 630 then (if k < 629 then 4170 else 1648) else (if k < 631 then 10063 else 11091)
          else
           if k < 636 then if k < 634 then (if k < 633 then 6621 else 1874) else (if k < 635 then 5731 else 3261)
           else if k < 638 then (if k < 637 then 11051 else 12230) else (if k < 639 then 5046 else 8678)
      else
       if k < 704 then
        if k < 672 then
         if k < 656 then
          if k < 648 then
           if k < 644 then if k < 642 then (if k < 641 then 5622 else 4715) else (if k < 643 then 9783 else 7385)
           else if k < 646 then (if k < 645 then 12112 else 3714) else (if k < 647 then 1456 else 9440)
          else
           if k < 652 then if k < 650 then (if k < 649 then 4944 else 12068) else (if k < 651 then 8695 else 6678)
           else if k < 654 then (if k < 653 then 12094 else 5758) else (if k < 655 then 8061 else 10400)
         else
          if k < 664 then
           if k < 660 then if k < 658 then (if k < 657 then 5872 else 3635) else (if k < 659 then 1339 else 10437)
           else if k < 662 then (if k < 661 then 5376 else 12168) else (if k < 663 then 9932 else 8216)
          else
           if k < 668 then if k < 666 then (if k < 665 then 5636 else 8587) else (if k < 667 then 11473 else 2542)
           else if k < 670 then (if k < 669 then 6131 else 1533) else (if k < 671 then 8026 else 720)
        else
         if k < 688 then
          if k < 680 then
           if k < 676 then if k < 674 then (if k < 673 then 11078 else 9164) else (if k < 675 then 1283 else 7238)
           else if k < 678 then (if k < 677 then 7363 else 10466) else (if k < 679 then 9278 else 4651)
          else
           if k < 684 then if k < 682 then (if k < 681 then 11788 else 3639) else (if k < 683 then 9745 else 2142)
           else if k < 686 then (if k < 685 then 2488 else 6948) else (if k < 687 then 1890 else 6582)
         else
          if k < 696 then
           if k < 692 then if k < 690 then (if k < 689 then 956 else 11600) else (if k < 691 then 8313 else 6362)
           else if k < 694 then (if k < 693 then 5898 else 2048) else (if k < 695 then 2722 else 4954)
          else
           if k < 700 then if k < 698 then (if k < 697 then 6677 else 5073) else (if k < 699 then 202 else 8467)
           else if k < 702 then (if k < 701 then 11705 else 3506) else (if k < 703 then 6748 else 10665)
       else
        if k < 736 then
         if k < 720 then
          if k < 712 then
           if k < 708 then if k < 706 then (if k < 705 then 5256 else 5313) else (if k < 707 then 713 else 2327)
           else if k < 710 then (if k < 709 then 10471 else 9820) else (if k < 711 then 3499 else 10937)
          else
           if k < 716 then if k < 714 then (if k < 713 then 11206 else 4187) else (if k < 715 then 6201 else 8604)
           else if k < 718 then (if k < 717 then 80 else 4570) else (if k < 719 then 6146 else 3926)
         else
          if k < 728 then
           if k < 724 then if k < 722 then (if k < 721 then 742 else 8592) else (if k < 723 then 3547 else 1390)
           else if k < 726 then (if k < 725 then 2521 else 7297) else (if k < 727 then 4118 else 4822)
          else
           if k < 732 then if k < 730 then (if k < 729 then 10607 else 5300) else (if k < 731 then 4116 else 7780)
           else if k < 734 then (if k < 733 then 7568 else 2207) else (if k < 735 then 11202 else 10103)
        else
         if k < 752 then
          if k < 744 then
           if k < 740 then if k < 738 then (if k < 737 then 10265 else 7269) else (if k < 739 then 6721 else 1442)
           else if k < 742 then (if k < 741 then 11474 else 1063) else (if k < 743 then 3441 else 10696)
          else
           if k < 748 then if k < 746 then (if k < 745 then 7768 else 1343) else (if k < 747 then 1989 else 7629)
           else if k < 750 then (if k < 749 then 1185 else 4712) else (if k < 751 then 9623 else 10534)
         else
          if k < 760 then
           if k < 756 then if k < 754 then (if k < 753 then 238 else 4379) else (if k < 755 then 4152 else 3692)
           else if k < 758 then (if k < 757 then 8924 else 12079) else (if k < 759 then 1089 else 11517)
          else
           if k < 764 then if k < 762 then (if k < 761 then 7344 else 1700) else (if k < 763 then 8740 else 1568)
           else if k < 766 then (if k < 765 then 1500 else 5809) else (if k < 767 then 10781 else 6023)
     else
      if k < 896 then
       if k < 832 then
        if k < 800 then
         if k < 784 then
          if k < 776 then
           if k < 772 then if k < 770 then (if k < 769 then 8391 else 1601) else (if k < 771 then 3460 else 7173)
           else if k < 774 then (if k < 773 then 11533 else 12114) else (if k < 775 then 7052 else 3453)
          else
           if k < 780 then if k < 778 then (if k < 777 then 6120 else 5513) else (if k < 779 then 3187 else 5403)
           else if k < 782 then (if k < 781 then 1250 else 6889) else (if k < 783 then 6936 else 2971)
         else
          if k < 792 then
           if k < 788 then if k < 786 then (if k < 785 then 2377 else 11360) else (if k < 787 then 7802 else 213)
           else if k < 790 then (if k < 789 then 7132 else 8023) else (if k < 791 then 5971 else 4682)
          else
           if k < 796 then if k < 794 then (if k < 793 then 1369 else 2934) else (if k < 795 then 9012 else 4817)
           else if k < 798 then (if k < 797 then 7649 else 5298) else (if k < 799 then 12202 else 5783)
        else
         if k < 816 then
          if k < 808 then
           if k < 804 then if k < 802 then (if k < 801 then 5242 else 1441) else (if k < 803 then 11312 else 7170)
           else if k < 806 then (if k < 805 then 4163 else 12001) else (if k < 807 then 9218 else 7368)
          else
           if k < 812 then if k < 810 then (if k < 809 then 10774 else 4087) else (if k < 811 then 4964 else 7066)
           else if k < 814 then (if k < 813 then 10835 else 12180) else (if k < 815 then 10572 else 7909)
         else
          if k < 824 then
           if k < 820 then if k < 818 then (if k < 817 then 6791 else 8513) else (if k < 819 then 3430 else 2387)
           else if k < 822 then (if k < 821 then 10403 else 12080) else (if k < 823 then 9335 else 6371)
          else
           if k < 828 then if k < 826 then (if k < 825 then 4149 else 8129) else (if k < 827 then 7528 else 12211)
           else if k < 830 then (if k < 829 then 5004 else 9351) else (if k < 831 then 7160 else 3478)
       else
        if k < 864 then
         if k < 848 then
          if k < 840 then
           if k < 836 then if k < 834 then (if k < 833 then 4120 else 1864) else (if k < 835 then 9294 else 5565)
           else if k < 838 then (if k < 837 then 5982 else 702) else (if k < 839 then 573 else 474)
          else
           if k < 844 then if k < 842 then (if k < 841 then 5997 else 3095) else (if k < 843 then 9406 else 11963)
           else if k < 846 then (if k < 845 then 2008 else 4106) else (if k < 847 then 1881 else 7604)
         else
          if k < 856 then
           if k < 852 then if k < 850 then (if k < 849 then 8793 else 9204) else (if k < 851 then 11609 else 10311)
           else if k < 854 then (if k < 853 then 3061 else 7422) else (if k < 855 then 2592 else 600)
          else
           if k < 860 then if k < 858 then (if k < 857 then 4480 else 10140) else (if k < 859 then 84 else 10943)
           else if k < 862 then (if k < 861 then 3164 else 2553) else (if k < 863 then 981 else 11492)
        else
         if k < 880 then
          if k < 872 then
           if k < 868 then if k < 866 then (if k < 865 then 5727 else 9177) else (if k < 867 then 10169 else 1785)
           else if k < 870 then (if k < 869 then 10266 else 5790) else (if k < 871 then 1575 else 5485)
          else
           if k < 876 then if k < 874 then (if k < 873 then 8184 else 529) else (if k < 875 then 11828 else 5924)
           else if k < 878 then (if k < 877 then 11310 else 10128) else (if k < 879 then 11733 else 11250)
         else
          if k < 888 then
           if k < 884 then if k < 882 then (if k < 881 then 3516 else 10372) else (if k < 883 then 8361 else 9104)
           else if k < 886 then (if k < 885 then 7706 else 7018) else (if k < 887 then 1527 else 2743)
          else
           if k < 892 then if k < 890 then (if k < 889 then 4915 else 5803) else (if k < 891 then 10461 else 32)
           else if k < 894 then (if k < 893 then 783 else 9398) else (if k < 895 then 1474 else 7396)
      else
       if k < 960 then
        if k < 928 then
         if k < 912 then
          if k < 904 then
           if k < 900 then if k < 898 then (if k < 897 then 5120 else 9833) else (if k < 899 then 96 else 5484)
           else if k < 902 then (if k < 901 then 3616 else 9940) else (if k < 903 then 9899 else 7867)
          else
           if k < 908 then if k < 906 then (if k < 905 then 8765 else 1460) else (if k < 907 then 8229 else 7708)
           else if k < 910 then (if k < 909 then 2734 else 11784) else (if k < 911 then 1741 else 5751)
         else
          if k < 920 then
           if k < 916 then if k < 914 then (if k < 913 then 5081 else 6069) else (if k < 915 then 4166 else 7564)
           else if k < 918 then (if k < 917 then 5355 else 6360) else (if k < 919 then 7397 else 9336)
          else
           if k < 924 then if k < 922 then (if k < 921 then 5806 else 2937) else (if k < 923 then 9172 else 1668)
           else if k < 926 then (if k < 925 then 5483 else 1383) else (if k < 927 then 26 else 10702)
        else
         if k < 944 then
          if k < 936 then
           if k < 932 then if k < 930 then (if k < 929 then 2106 else 6632) else (if k < 931 then 1422 else 10570)
           else if k < 934 then (if k < 933 then 4406 else 8985) else (if k < 935 then 12218 else 6697)
          else
           if k < 940 then if k < 938 then (if k < 937 then 29 else 6265) else (if k < 939 then 10523 else 6646)
           else if k < 942 then (if k < 941 then 11311 else 8649) else (if k < 943 then 6587 else 3004)
         else
          if k < 952 then
           if k < 948 then if k < 946 then (if k < 945 then 9977 else 3106) else (if k < 947 then 1800 else 4513)
           else if k < 950 then (if k < 949 then 6355 else 2040) else (if k < 951 then 10488 else 9255)
          else
           if k < 956 then if k < 954 then (if k < 953 then 7659 else 2797) else (if k < 955 then 9898 else 9346)
           else if k < 958 then (if k < 957 then 8251 else 12037) else (if k < 959 then 11138 else 6447)
       else
        if k < 992 then
         if k < 976 then
          if k < 968 then
           if k < 964 then if k < 962 then (if k < 961 then 11764 else 2268) else (if k < 963 then 10359 else 3422)
           else if k < 966 then (if k < 965 then 9230 else 1909) else (if k < 967 then 11694 else 7486)
          else
           if k < 972 then if k < 970 then (if k < 969 then 8378 else 8539) else (if k < 971 then 8913 else 3770)
           else if k < 974 then (if k < 973 then 3920 else 2728) else (if k < 975 then 6218 else 8039)
         else
          if k < 984 then
           if k < 980 then if k < 978 then (if k < 977 then 11780 else 3182) else (if k < 979 then 1757 else 6665)
           else if k < 982 then (if k < 981 then 639 else 1172) else (if k < 983 then 5158 else 2787)
          else
           if k < 988 then if k < 986 then (if k < 985 then 3605 else 1631) else (if k < 987 then 5060 else 261)
           else if k < 990 then (if k < 989 then 2162 else 9831) else (if k < 991 then 8182 else 3487)
        else
         if k < 1008 then
          if k < 1000 then
           if k < 996 then if k < 994 then (if k < 993 then 11425 else 12089) else (if k < 995 then 9815 else 9213)
           else if k < 998 then (if k < 997 then 9221 else 2931) else (if k < 999 then 8852 else 7966)
          else
           if k < 1004 then if k < 1002 then (if k < 1001 then 11962 else 4362) else (if k < 1003 then 11438 else 5151)
           else if k < 1006 then (if k < 1005 then 8909 else 9686) else (if k < 1007 then 4545 else 28)
         else
          if k < 1016 then
           if k < 1012 then if k < 1010 then (if k < 1009 then 11662 else 5658) else (if k < 1011 then 6824 else 8862)
           else if k < 1014 then (if k < 1013 then 7161 else 1999) else (if k < 1015 then 4205 else 11328)
          else
           if k < 1020 then if k < 1018 then (if k < 1017 then 3475 else 9566) else (if k < 1019 then 10434 else 3098)
           else if k < 1022 then (if k < 1021 then 12055 else 1994) else (if k < 1023 then 12131 else 191)
  }

  /** `IROOTS`. */
  function InverseRoot(k: int): int {
    if k < 512 then
     if k < 256 then
      if k < 128 then
       if k < 64 then
        if k < 32 then
         if k < 16 then
          if k < 8 then
           if k < 4 then if k < 2 then (if k < 1 then 10952 else 1106) else (if k < 3 then 10620 else 1638)
           else if k < 6 then (if k < 5 then 2892 else 696) else (if k < 7 then 6772 else 253)
          else
           if k < 12 then if k < 10 then (if k < 9 then 6727 else 7432) else (if k < 11 then 10585 else 11318)
           else if k < 14 then (if k < 13 then 11700 else 1388) else (if k < 15 then 9550 else 4389)
         else
          if k < 24 then
           if k < 20 then if k < 18 then (if k < 17 then 12093 else 5052) else (if k < 19 then 5932 else 11371)
           else if k < 22 then (if k < 21 then 810 else 5957) else (if k < 23 then 6333 else 2289)
          else
           if k < 28 then if k < 26 then (if k < 25 then 5683 else 11770) else (if k < 27 then 4061 else 9187)
           else if k < 30 then (if k < 29 then 9243 else 5029) else (if k < 31 then 1400 else 6048)
        else
         if k < 48 then
          if k < 40 then
           if k < 36 then if k < 34 then (if k < 33 then 169 else 4171) else (if k < 35 then 4917 else 9444)
           else if k < 38 then (if k < 37 then 10462 else 1447) else (if k < 39 then 872 else 11632)
          else
           if k < 44 then if k < 42 then (if k < 41 then 5069 else 761) else (if k < 43 then 4085 else 7816)
           else if k < 46 then (if k < 45 then 2501 else 12279) else (if k < 47 then 2304 else 3563)
         else
          if k < 56 then
           if k < 52 then if k < 50 then (if k < 49 then 5172 else 5630) else (if k < 51 then 5482 else 9427)
           else if k < 54 then (if k < 53 then 10477 else 11343) else (if k < 55 then 1672 else 2799)
          else
           if k < 60 then if k < 58 then (if k < 57 then 9043 else 4165) else (if k < 59 then 11215 else 9124)
           else if k < 62 then (if k < 61 then 624 else 1221) else (if k < 63 then 8702 else 3675)
       else
        if k < 96 then
         if k < 80 then
          if k < 72 then
           if k < 68 then if k < 66 then (if k < 65 then 4027 else 8057) else (if k < 67 then 1764 else 3688)
           else if k < 70 then (if k < 69 then 8312 else 4448) else (if k < 71 then 4999 else 7832)
          else
           if k < 76 then if k < 74 then (if k < 73 then 8949 else 318) else (if k < 75 then 10298 else 4671)
           else if k < 78 then (if k < 77 then 5276 else 11978) else (if k < 79 then 2836 else 3895)
         else
          if k < 88 then
           if k < 84 then if k < 82 then (if k < 81 then 3550 else 3047) else (if k < 83 then 902 else 6846)
           else if k < 86 then (if k < 85 then 2634 else 73) else (if k < 87 then 5301 else 12086)
          else
           if k < 92 then if k < 90 then (if k < 89 then 2277 else 497) else (if k < 91 then 10839 else 6025)
           else if k < 94 then (if k < 93 then 12033 else 2335) else (if k < 95 then 2732 else 9836)
        else
         if k < 112 then
          if k < 104 then
           if k < 100 then if k < 98 then (if k < 97 then 11109 else 12107) else (if k < 99 then 2608 else 10775)
           else if k < 102 then (if k < 101 then 613 else 9530) else (if k < 103 then 4019 else 8514)
          else
           if k < 108 then if k < 106 then (if k < 105 then 8382 else 9666) else (if k < 107 then 4636 else 11671)
           else if k < 110 then (if k < 109 then 8497 else 7705) else (if k < 111 then 6673 else 1300)
         else
          if k < 120 then
           if k < 116 then if k < 114 then (if k < 113 then 8899 else 102) else (if k < 115 then 3535 else 5440)
           else if k < 118 then (if k < 117 then 7489 else 3842) else (if k < 119 then 2069 else 90)
          else
           if k < 124 then if k < 122 then (if k < 121 then 6376 else 4441) else (if k < 123 then 4154 else 11555)
           else if k < 126 then (if k < 125 then 10768 else 11617) else (if k < 127 then 4903 else 1027)
      else
       if k < 192 then
        if k < 160 then
         if k < 144 then
          if k < 136 then
           if k < 132 then if k < 130 then (if k < 129 then 9673 else 1971) else (if k < 131 then 7948 else 6808)
           else if k < 134 then (if k < 133 then 12065 else 507) else (if k < 135 then 8535 else 2462)
          else
           if k < 140 then if k < 138 then (if k < 137 then 5377 else 1600) else (if k < 139 then 30 else 7503)
           else if k < 142 then (if k < 141 then 10006 else 2918) else (if k < 143 then 1130 else 12255)
         else
          if k < 152 then
           if k < 148 then if k < 146 then (if k < 145 then 7273 else 3892) else (if k < 147 then 2838 else 6853)
           else if k < 150 then (if k < 149 then 7688 else 3227) else (if k < 151 then 8586 else 4157)
          else
           if k < 156 then if k < 154 then (if k < 153 then 10761 else 1264) else (if k < 155 then 8626 else 1872)
           else if k < 158 then (if k < 157 then 12083 else 2551) else (if k < 159 then 9495 else 9067)
        else
         if k < 176 then
          if k < 168 then
           if k < 164 then if k < 162 then (if k < 161 then 5579 else 5422) else (if k < 163 then 6707 else 2430)
           else if k < 166 then (if k < 165 then 9422 else 11701) else (if k < 167 then 2754 else 5507)
          else
           if k < 172 then if k < 170 then (if k < 169 then 8089 else 6434) else (if k < 171 then 9491 else 3151)
           else if k < 174 then (if k < 173 then 1557 else 4760) else (if k < 175 then 9306 else 12183)
         else
          if k < 184 then
           if k < 180 then if k < 178 then (if k < 177 then 8217 else 11411) else (if k < 179 then 8125 else 10522)
           else if k < 182 then (if k < 181 then 2282 else 7892) else (if k < 183 then 2913 else 7177)
          else
           if k < 188 then if k < 186 then (if k < 185 then 8971 else 8278) else (if k < 187 then 7375 else 7282)
           else if k < 190 then (if k < 189 then 10201 else 8676) else (if k < 191 then 11530 else 8027)
       else
        if k < 224 then
         if k < 208 then
          if k < 200 then
           if k < 196 then if k < 194 then (if k < 193 then 232 else 11325) else (if k < 195 then 8277 else 1839)
           else if k < 198 then (if k < 197 then 546 else 8749) else (if k < 199 then 4542 else 7824)
          else
           if k < 204 then if k < 202 then (if k < 201 then 4559 else 8389) else (if k < 203 then 1463 else 913)
           else if k < 206 then (if k < 205 then 7869 else 568) else (if k < 207 then 1854 else 1619)
         else
          if k < 216 then
           if k < 212 then if k < 210 then (if k < 209 then 6082 else 12019) else (if k < 211 then 763 else 10178)
           else if k < 214 then (if k < 213 then 11983 else 2119) else (if k < 215 then 8258 else 10605)
          else
           if k < 220 then if k < 218 then (if k < 217 then 9869 else 9208) else (if k < 219 then 2016 else 7726)
           else if k < 222 then (if k < 221 then 11255 else 6839) else (if k < 223 then 2202 else 173)
        else
         if k < 240 then
          if k < 232 then
           if k < 228 then if k < 226 then (if k < 225 then 8675 else 609) else (if k < 227 then 12070 else 7902)
           else if k < 230 then (if k < 229 then 3148 else 10650) else (if k < 231 then 4040 else 2706)
          else
           if k < 236 then if k < 234 then (if k < 233 then 4093 else 7359) else (if k < 235 then 5284 else 11521)
           else if k < 238 then (if k < 237 then 10798 else 6831) else (if k < 239 then 6503 else 7939)
         else
          if k < 248 then
           if k < 244 then if k < 242 then (if k < 241 then 3781 else 604) else (if k < 243 then 933 else 3539)
           else if k < 246 then (if k < 245 then 11335 else 2269) else (if k < 247 then 10565 else 6316)
          else
           if k < 252 then if k < 250 then (if k < 249 then 407 else 12081) else (if k < 251 then 1225 else 5292)
           else if k < 254 then (if k < 253 then 11234 else 358) else (if k < 255 then 1082 else 2708)
     else
      if k < 384 then
       if k < 320 then
        if k < 288 then
         if k < 272 then
          if k < 264 then
           if k < 260 then if k < 258 then (if k < 257 then 6995 else 10556) else (if k < 259 then 8493 else 1789)
           else if k < 262 then (if k < 261 then 1313 else 265) else (if k < 263 then 389 else 10037)
          else
           if k < 268 then if k < 266 then (if k < 265 then 5404 else 4666) else (if k < 267 then 1470 else 11266)
           else if k < 270 then (if k < 269 then 11023 else 7803) else (if k < 271 then 6214 else 10623)
         else
          if k < 280 then
           if k < 276 then if k < 274 then (if k < 273 then 12285 else 6373) else (if k < 275 then 3883 else 3994)
           else if k < 278 then (if k < 277 then 8042 else 10655) else (if k < 279 then 2888 else 7069)
          else
           if k < 284 then if k < 282 then (if k < 281 then 11151 else 491) else (if k < 283 then 4848 else 5705)
           else if k < 286 then (if k < 285 then 2195 else 2109) else (if k < 287 then 10562 else 1879)
        else
         if k < 304 then
          if k < 296 then
           if k < 292 then if k < 290 then (if k < 289 then 3013 else 7609) else (if k < 291 then 9129 else 8469)
           else if k < 294 then (if k < 293 then 6985 else 8055) else (if k < 295 then 12056 else 11774)
          else
           if k < 300 then if k < 298 then (if k < 297 then 3113 else 8041) else (if k < 299 then 10366 else 6931)
           else if k < 302 then (if k < 301 then 2559 else 12038) else (if k < 303 then 1301 else 7095)
         else
          if k < 312 then
           if k < 308 then if k < 306 then (if k < 305 then 9385 else 6134) else (if k < 307 then 4877 else 11729)
           else if k < 310 then (if k < 309 then 1217 else 5749) else (if k < 311 then 7558 else 7581)
          else
           if k < 316 then if k < 314 then (if k < 313 then 9464 else 85) else (if k < 315 then 4994 else 437)
           else if k < 318 then (if k < 317 then 8289 else 7298) else (if k < 319 then 11965 else 75)
       else
        if k < 352 then
         if k < 336 then
          if k < 328 then
           if k < 324 then if k < 322 then (if k < 321 then 11368 else 1920) else (if k < 323 then 36 else 4088)
           else if k < 326 then (if k < 325 then 2176 else 10875) else (if k < 327 then 1356 else 2417)
          else
           if k < 332 then if k < 330 then (if k < 329 then 2189 else 5524) else (if k < 331 then 10242 else 7870)
           else if k < 334 then (if k < 333 then 4622 else 3254) else (if k < 335 then 4823 else 5597)
         else
          if k < 344 then
           if k < 340 then if k < 338 then (if k < 337 then 3082 else 11348) else (if k < 339 then 520 else 7162)
           else if k < 342 then (if k < 341 then 9584 else 5519) else (if k < 343 then 11394 else 3507)
          else
           if k < 348 then if k < 346 then (if k < 345 then 4310 else 8788) else (if k < 347 then 472 else 9904)
           else if k < 350 then (if k < 349 then 10779 else 3308) else (if k < 351 then 9586 else 8477)
        else
         if k < 368 then
          if k < 360 then
           if k < 356 then if k < 354 then (if k < 353 then 7249 else 5263) else (if k < 355 then 1558 else 6239)
           else if k < 358 then (if k < 357 then 6784 else 5712) else (if k < 359 then 1336 else 9704)
          else
           if k < 364 then if k < 362 then (if k < 361 then 3933 else 4210) else (if k < 363 then 847 else 11524)
           else if k < 366 then (if k < 365 then 675 else 2916) else (if k < 367 then 11422 else 8052)
         else
          if k < 376 then
           if k < 372 then if k < 370 then (if k < 369 then 934 else 5018) else (if k < 371 then 8850 else 1365)
           else if k < 374 then (if k < 373 then 2410 else 580) else (if k < 375 then 1547 else 2259)
          else
           if k < 380 then if k < 378 then (if k < 377 then 7654 else 2097) else (if k < 379 then 10869 else 1239)
           else if k < 382 then (if k < 381 then 9750 else 5253) else (if k < 383 then 3862 else 9802)
      else
       if k < 448 then
        if k < 416 then
         if k < 400 then
          if k < 392 then
           if k < 388 then if k < 386 then (if k < 385 then 699 else 1545) else (if k < 387 then 413 else 8666)
           else if k < 390 then (if k < 389 then 1751 else 9039) else (if k < 391 then 11460 else 2809)
          else
           if k < 396 then if k < 394 then (if k < 393 then 8386 else 3293) else (if k < 395 then 753 else 7677)
           else if k < 398 then (if k < 397 then 455 else 9339) else (if k < 399 then 3785 else 6520)
         else
          if k < 408 then
           if k < 404 then if k < 402 then (if k < 401 then 1904 else 1835) else (if k < 403 then 7331 else 3651)
           else if k < 406 then (if k < 405 then 6176 else 3577) else (if k < 407 then 1680 else 2342)
          else
           if k < 412 then if k < 410 then (if k < 409 then 972 else 12064) else (if k < 411 then 2684 else 289)
           else if k < 414 then (if k < 413 then 12034 else 3814) else (if k < 415 then 10978 else 2693)
        else
         if k < 432 then
          if k < 424 then
           if k < 420 then if k < 418 then (if k < 417 then 3625 else 3371) else (if k < 419 then 4902 else 11837)
           else if k < 422 then (if k < 421 then 5459 else 12277) else (if k < 423 then 307 else 11649)
          else
           if k < 428 then if k < 426 then (if k < 425 then 5181 else 6652) else (if k < 427 then 5962 else 6585)
           else if k < 430 then (if k < 429 then 10816 else 8875) else (if k < 431 then 7463 else 2255)
         else
          if k < 440 then
           if k < 436 then if k < 434 then (if k < 433 then 5936 else 4998) else (if k < 435 then 1169 else 8491)
           else if k < 438 then (if k < 437 then 10580 else 3923) else (if k < 439 then 3069 else 4410)
          else
           if k < 444 then if k < 442 then (if k < 441 then 5199 else 8696) else (if k < 443 then 6922 else 901)
           else if k < 446 then (if k < 445 then 11494 else 3939) else (if k < 447 then 6756 else 1167)
       else
        if k < 480 then
         if k < 464 then
          if k < 456 then
           if k < 452 then if k < 450 then (if k < 449 then 8281 else 7755) else (if k < 451 then 7442 else 8063)
           else if k < 454 then (if k < 453 then 8789 else 9458) else (if k < 455 then 5861 else 4674)
          else
           if k < 460 then if k < 458 then (if k < 457 then 2601 else 422) else (if k < 459 then 3541 else 2025)
           else if k < 462 then (if k < 461 then 11948 else 11799) else (if k < 463 then 2295 else 2541)
         else
          if k < 472 then
           if k < 468 then if k < 466 then (if k < 465 then 7648 else 5512) else (if k < 467 then 10549 else 7230)
           else if k < 470 then (if k < 469 then 9524 else 2802) else (if k < 471 then 8194 else 1972)
          else
           if k < 476 then if k < 474 then (if k < 473 then 703 else 7461) else (if k < 475 then 8819 else 4672)
           else if k < 478 then (if k < 477 then 5998 else 10673) else (if k < 479 then 8572 else 8029)
        else
         if k < 496 then
          if k < 488 then
           if k < 484 then if k < 482 then (if k < 481 then 2685 else 1768) else (if k < 483 then 8021 else 4174)
           else if k < 486 then (if k < 485 then 2823 else 9246) else (if k < 487 then 3092 else 1560)
          else
           if k < 492 then if k < 490 then (if k < 489 then 8109 else 11436) else (if k < 491 then 2365 else 7759)
           else if k < 494 then (if k < 493 then 10503 else 641) else (if k < 495 then 7155 else 1416)
         else
          if k < 504 then
           if k < 500 then if k < 498 then (if k < 497 then 10109 else 7787) else (if k < 499 then 2527 else 1577)
           else if k < 502 then (if k < 501 then 8006 else 6567) else (if k < 503 then 968 else 6148)
          else
           if k < 508 then if k < 506 then (if k < 505 then 6529 else 9526) else (if k < 507 then 25 else 108)
           else if k < 510 then (if k < 509 then 4242 else 6528) else (if k < 511 then 5038 else 4068)
    else
     if k < 768 then
      if k < 640 then
       if k < 576 then
        if k < 544 then
         if k < 528 then
          if k < 520 then
           if k < 516 then if k < 514 then (if k < 513 then 12098 else 158) else (if k < 515 then 10295 else 234)
           else if k < 518 then (if k < 517 then 9191 else 1855) else (if k < 519 then 2723 else 8814)
          else
           if k < 524 then if k < 522 then (if k < 521 then 961 else 8084) else (if k < 523 then 10290 else 5128)
           else if k < 526 then (if k < 525 then 3427 else 5465) else (if k < 527 then 6631 else 627)
         else
          if k < 536 then
           if k < 532 then if k < 530 then (if k < 529 then 12261 else 7744) else (if k < 531 then 2603 else 3380)
           else if k < 534 then (if k < 533 then 7138 else 851) else (if k < 535 then 7927 else 327)
          else
           if k < 540 then if k < 538 then (if k < 537 then 4323 else 3437) else (if k < 539 then 9358 else 3068)
           else if k < 542 then (if k < 541 then 3076 else 2474) else (if k < 543 then 200 else 864)
        else
         if k < 560 then
          if k < 552 then
           if k < 548 then if k < 546 then (if k < 545 then 8802 else 4107) else (if k < 547 then 2458 else 10127)
           else if k < 550 then (if k < 549 then 12028 else 7229) else (if k < 551 then 10658 else 8684)
          else
           if k < 556 then if k < 554 then (if k < 553 then 9502 else 7131) else (if k < 555 then 11117 else 11650)
           else if k < 558 then (if k < 557 then 5624 else 10532) else (if k < 559 then 9107 else 509)
         else
          if k < 568 then
           if k < 564 then if k < 562 then (if k < 561 then 4250 else 6071) else (if k < 563 then 9561 else 8369)
           else if k < 566 then (if k < 565 then 8519 else 3376) else (if k < 567 then 3750 else 3911)
          else
           if k < 572 then if k < 570 then (if k < 569 then 4803 else 595) else (if k < 571 then 10380 else 3059)
           else if k < 574 then (if k < 573 then 8867 else 1930) else (if k < 575 then 10021 else 525)
       else
        if k < 608 then
         if k < 592 then
          if k < 584 then
           if k < 580 then if k < 578 then (if k < 577 then 5842 else 1151) else (if k < 579 then 252 else 4038)
           else if k < 582 then (if k < 581 then 2943 else 2391) else (if k < 583 then 9492 else 4630)
          else
           if k < 588 then if k < 586 then (if k < 585 then 3034 else 1801) else (if k < 587 then 10249 else 5934)
           else if k < 590 then (if k < 589 then 7776 else 10489) else (if k < 591 then 9183 else 2312)
         else
          if k < 600 then
           if k < 596 then if k < 594 then (if k < 593 then 9285 else 5702) else (if k < 595 then 3640 else 978)
           else if k < 598 then (if k < 597 then 5643 else 1766) else (if k < 599 then 6024 else 12260)
          else
           if k < 604 then if k < 602 then (if k < 601 then 5592 else 71) else (if k < 603 then 3304 else 7883)
           else if k < 606 then (if k < 605 then 1719 else 10867) else (if k < 607 then 5657 else 10183)
        else
         if k < 624 then
          if k < 616 then
           if k < 612 then if k < 610 then (if k < 609 then 1587 else 12263) else (if k < 611 then 10906 else 6806)
           else if k < 614 then (if k < 613 then 10621 else 3117) else (if k < 615 then 9352 else 6483)
          else
           if k < 620 then if k < 618 then (if k < 617 then 2953 else 4892) else (if k < 619 then 5929 else 6934)
           else if k < 622 then (if k < 621 then 4725 else 8123) else (if k < 623 then 6220 else 7208)
         else
          if k < 632 then
           if k < 628 then if k < 626 then (if k < 625 then 6538 else 10548) else (if k < 627 then 505 else 9555)
           else if k < 630 then (if k < 629 then 4581 else 4060) else (if k < 631 then 10829 else 3524)
          else
           if k < 636 then if k < 634 then (if k < 633 then 4422 else 2390) else (if k < 635 then 2349 else 8673)
           else if k < 638 then (if k < 637 then 6805 else 12193) else (if k < 639 then 2456 else 7169)
      else
       if k < 704 then
        if k < 672 then
         if k < 656 then
          if k < 648 then
           if k < 644 then if k < 642 then (if k < 641 then 4893 else 10815) else (if k < 643 then 2891 else 11506)
           else if k < 646 then (if k < 645 then 12257 else 1828) else (if k < 647 then 6486 else 7374)
          else
           if k < 652 then if k < 650 then (if k < 649 then 9546 else 10762) else (if k < 651 then 5271 else 4583)
           else if k < 654 then (if k < 653 then 3185 else 3928) else (if k < 655 then 1917 else 8773)
         else
          if k < 664 then
           if k < 660 then if k < 658 then (if k < 657 then 1039 else 556) else (if k < 659 then 2161 else 979)
           else if k < 662 then (if k < 661 then 6365 else 461) else (if k < 663 then 11760 else 4105)
          else
           if k < 668 then if k < 666 then (if k < 665 then 6804 else 10714) else (if k < 667 then 6499 else 2023)
           else if k < 670 then (if k < 669 then 10504 else 2120) else (if k < 671 then 3112 else 6562)
        else
         if k < 688 then
          if k < 680 then
           if k < 676 then if k < 674 then (if k < 673 then 797 else 11308) else (if k < 675 then 9736 else 9125)
           else if k < 678 then (if k < 677 then 1346 else 12205) else (if k < 679 then 2149 else 7809)
          else
           if k < 684 then if k < 682 then (if k < 681 then 11689 else 9697) else (if k < 683 then 4867 else 9228)
           else if k < 686 then (if k < 685 then 1978 else 680) else (if k < 687 then 3085 else 3496)
         else
          if k < 696 then
           if k < 692 then if k < 690 then (if k < 689 then 4685 else 10408) else (if k < 691 then 8183 else 10281)
           else if k < 694 then (if k < 693 then 326 else 2883) else (if k < 695 then 9194 else 6292)
          else
           if k < 700 then if k < 698 then (if k < 697 then 11815 else 11716) else (if k < 699 then 11587 else 6307)
           else if k < 702 then (if k < 701 then 6724 else 2995) else (if k < 703 then 10425 else 8169)
       else
        if k < 736 then
         if k < 720 then
          if k < 712 then
           if k < 708 then if k < 706 then (if k < 705 then 8811 else 5129) else (if k < 707 then 2938 else 7285)
           else if k < 710 then (if k < 709 then 78 else 4761) else (if k < 711 then 4160 else 8140)
          else
           if k < 716 then if k < 714 then (if k < 713 then 5918 else 2954) else (if k < 715 then 209 else 1886)
           else if k < 718 then (if k < 717 then 9902 else 8859) else (if k < 719 then 3776 else 5498)
         else
          if k < 728 then
           if k < 724 then if k < 722 then (if k < 721 then 4380 else 1717) else (if k < 723 then 109 else 1454)
           else if k < 726 then (if k < 725 then 5223 else 7325) else (if k < 727 then 8202 else 1515)
          else
           if k < 732 then if k < 730 then (if k < 729 then 4921 else 3071) else (if k < 731 then 288 else 8126)
           else if k < 734 then (if k < 733 then 5119 else 977) else (if k < 735 then 10848 else 7047)
        else
         if k < 752 then
          if k < 744 then
           if k < 740 then if k < 738 then (if k < 737 then 6506 else 87) else (if k < 739 then 6991 else 4640)
           else if k < 742 then (if k < 741 then 7472 else 3277) else (if k < 743 then 9355 else 10920)
          else
           if k < 748 then if k < 746 then (if k < 745 then 7607 else 6318) else (if k < 747 then 4266 else 5157)
           else if k < 750 then (if k < 749 then 12076 else 4487) else (if k < 751 then 929 else 9912)
         else
          if k < 760 then
           if k < 756 then if k < 754 then (if k < 753 then 9318 else 5353) else (if k < 755 then 5400 else 11039)
           else if k < 758 then (if k < 757 then 6886 else 9102) else (if k < 759 then 6776 else 6169)
          else
           if k < 764 then if k < 762 then (if k < 761 then 8836 else 5237) else (if k < 763 then 175 else 756)
           else if k < 766 then (if k < 765 then 5116 else 8829) else (if k < 767 then 10688 else 3898)
     else
      if k < 896 then
       if k < 832 then
        if k < 800 then
         if k < 784 then
          if k < 776 then
           if k < 772 then if k < 770 then (if k < 769 then 6266 else 1508) else (if k < 771 then 6480 else 10789)
           else if k < 774 then (if k < 773 then 10721 else 3549) else (if k < 775 then 10589 else 4945)
          else
           if k < 780 then if k < 778 then (if k < 777 then 772 else 11200) else (if k < 779 then 210 else 3365)
           else if k < 782 then (if k < 781 then 8597 else 8137) else (if k < 783 then 7910 else 12051)
         else
          if k < 792 then
           if k < 788 then if k < 786 then (if k < 785 then 1755 else 2666) else (if k < 787 then 7577 else 11104)
           else if k < 790 then (if k < 789 then 4660 else 10300) else (if k < 791 then 10946 else 4521)
          else
           if k < 796 then if k < 794 then (if k < 793 then 1593 else 8848) else (if k < 795 then 11226 else 815)
           else if k < 798 then (if k < 797 then 10847 else 5568) else (if k < 799 then 5020 else 2024)
        else
         if k < 816 then
          if k < 808 then
           if k < 804 then if k < 802 then (if k < 801 then 2186 else 1087) else (if k < 803 then 10082 else 4721)
           else if k < 806 then (if k < 805 then 4509 else 8173) else (if k < 807 then 6989 else 1682)
          else
           if k < 812 then if k < 810 then (if k < 809 then 7467 else 8171) else (if k < 811 then 4992 else 9768)
           else if k < 814 then (if k < 813 then 10899 else 8742) else (if k < 815 then 3697 else 11547)
         else
          if k < 824 then
           if k < 820 then if k < 818 then (if k < 817 then 8363 else 6143) else (if k < 819 then 7719 else 12209)
           else if k < 822 then (if k < 821 then 3685 else 6088) else (if k < 823 then 8102 else 1083)
          else
           if k < 828 then if k < 826 then (if k < 825 then 1352 else 8790) else (if k < 827 then 2469 else 1818)
           else if k < 830 then (if k < 829 then 9962 else 11576) else (if k < 831 then 6976 else 7033)
       else
        if k < 864 then
         if k < 848 then
          if k < 840 then
           if k < 836 then if k < 834 then (if k < 833 then 1624 else 5541) else (if k < 835 then 8783 else 584)
           else if k < 838 then (if k < 837 then 3822 else 12087) else (if k < 839 then 7216 else 5612)
          else
           if k < 844 then if k < 842 then (if k < 841 then 7335 else 9567) else (if k < 843 then 10241 else 6391)
           else if k < 846 then (if k < 845 then 5927 else 3976) else (if k < 847 then 689 else 11333)
         else
          if k < 856 then
           if k < 852 then if k < 850 then (if k < 849 then 5707 else 10399) else (if k < 851 then 5341 else 9801)
           else if k < 854 then (if k < 853 then 10147 else 2544) else (if k < 855 then 8650 else 501)
          else
           if k < 860 then if k < 858 then (if k < 857 then 7638 else 3011) else (if k < 859 then 1823 else 4926)
           else if k < 862 then (if k < 861 then 5051 else 11006) else (if k < 863 then 3125 else 1211)
        else
         if k < 880 then
          if k < 872 then
           if k < 868 then if k < 866 then (if k < 865 then 11569 else 4263) else (if k < 867 then 10756 else 6158)
           else if k < 870 then (if k < 869 then 9747 else 816) else (if k < 871 then 3702 else 6653)
          else
           if k < 876 then if k < 874 then (if k < 873 then 4073 else 2357) else (if k < 875 then 121 else 6913)
           else if k < 878 then (if k < 877 then 1852 else 10950) else (if k < 879 then 8654 else 6417)
         else
          if k < 888 then
           if k < 884 then if k < 882 then (if k < 881 then 1889 else 4228) else (if k < 883 then 6531 else 195)
           else if k < 886 then (if k < 885 then 5611 else 3594) else (if k < 887 then 221 else 7345)
          else
           if k < 892 then if k < 890 then (if k < 889 then 2849 else 10833) else (if k < 891 then 8575 else 177)
           else if k < 894 then (if k < 893 then 4904 else 2506) else (if k < 895 then 7574 else 6667)
      else
       if k < 960 then
        if k < 928 then
         if k < 912 then
          if k < 904 then
           if k < 900 then if k < 898 then (if k < 897 then 3611 else 7243) else (if k < 899 then 59 else 1238)
           else if k < 902 then (if k < 901 then 9028 else 6558) else (if k < 903 then 10415 else 5668)
          else
           if k < 908 then if k < 906 then (if k < 905 then 1198 else 2226) else (if k < 907 then 10641 else 8119)
           else if k < 910 then (if k < 909 then 65 else 10112) else (if k < 911 then 7563 else 2687)
         else
          if k < 920 then
           if k < 916 then if k < 914 then (if k < 913 then 272 else 9040) else (if k < 915 then 6314 else 11055)
           else if k < 918 then (if k < 917 then 6149 else 511) else (if k < 919 then 240 else 10868)
          else
           if k < 924 then if k < 922 then (if k < 921 then 3650 else 3479) else (if k < 923 then 2139 else 5308)
           else if k < 926 then (if k < 925 then 10497 else 4056) else (if k < 927 then 6835 else 7407)
        else
         if k < 944 then
          if k < 936 then
           if k < 932 then if k < 930 then (if k < 929 then 4029 else 11015) else (if k < 931 then 5967 else 1691)
           else if k < 934 then (if k < 933 then 4291 else 5265) else (if k < 935 then 3555 else 10442)
          else
           if k < 940 then if k < 938 then (if k < 937 then 9518 else 6217) else (if k < 939 then 7874 else 7963)
           else if k < 942 then (if k < 941 then 10323 else 4779) else (if k < 943 then 9844 else 9100)
         else
          if k < 952 then
           if k < 948 then if k < 946 then (if k < 945 then 848 else 714) else (if k < 947 then 167 else 1213)
           else if k < 950 then (if k < 949 then 3267 else 2316) else (if k < 951 then 2194 else 630)
          else
           if k < 956 then if k < 954 then (if k < 953 then 7765 else 6509) else (if k < 955 then 4500 else 7151)
           else if k < 958 then (if k < 957 then 1642 else 7585) else (if k < 959 then 9743 else 7189)
       else
        if k < 992 then
         if k < 976 then
          if k < 968 then
           if k < 964 then if k < 962 then (if k < 961 then 1183 else 4619) else (if k < 963 then 9841 else 4663)
           else if k < 966 then (if k < 965 then 11789 else 10129) else (if k < 967 then 6104 else 7690)
          else
           if k < 972 then if k < 970 then (if k < 969 then 10905 else 5327) else (if k < 971 then 4017 else 5556)
           else if k < 974 then (if k < 973 then 5218 else 12219) else (if k < 975 then 3839 else 363)
         else
          if k < 984 then
           if k < 980 then if k < 978 then (if k < 977 then 11626 else 2543) else (if k < 979 then 1507 else 4544)
           else if k < 982 then (if k < 981 then 11894 else 5667) else (if k < 983 then 11704 else 7304)
          else
           if k < 988 then if k < 986 then (if k < 985 then 1856 else 4577) else (if k < 987 then 4771 else 2423)
           else if k < 990 then (if k < 989 then 4368 else 8547) else (if k < 991 then 11758 else 1147)
        else
         if k < 1008 then
          if k < 1000 then
           if k < 996 then if k < 994 then (if k < 993 then 10917 else 10786) else (if k < 995 then 4657 else 5863)
           else if k < 998 then (if k < 997 then 5670 else 4832) else (if k < 999 then 7464 else 3734)
          else
           if k < 1004 then if k < 1002 then (if k < 1001 then 2914 else 8656) else (if k < 1003 then 3849 else 2864)
           else if k < 1006 then (if k < 1005 then 3256 else 10625) else (if k < 1007 then 9800 else 5469)
         else
          if k < 1016 then
           if k < 1012 then if k < 1010 then (if k < 1009 then 10222 else 2868) else (if k < 1011 then 361 else 5492)
           else if k < 1014 then (if k < 1013 then 8166 else 9716) else (if k < 1015 then 5405 else 6145)
          else
           if k < 1020 then if k < 1018 then (if k < 1017 then 7955 else 4872) else (if k < 1019 then 10537 else 1771)
           else if k < 1022 then (if k < 1021 then 606 else 11466) else (if k < 1023 then 7742 else 9359)
  }

  // ----- what the tables satisfy, row by row

  /** Inverse to each other, in Montgomery form. */
  predicate Inverses(r: int, s: int) {
    (r * s - W * W) % Q == 0
  }

  /** A square root, in Montgomery form. */
  predicate IsRoot(left: int, c: int) {
    (left * left * WINV - c) % Q == 0
  }

  predicate IsResidue(r: int) {
    0 <= r < Q
  }

  lemma ResiduesFrom0(k: int)
    requires 0 <= k < 256
    ensures IsResidue(Root(k)) && IsResidue(InverseRoot(k))
  {
  }

  lemma ResiduesFrom1(k: int)
    requires 256 <= k < 512
    ensures IsResidue(Root(k)) && IsResidue(InverseRoot(k))
  {
  }

  lemma ResiduesFrom2(k: int)
    requires 512 <= k < 768
    ensures IsResidue(Root(k)) && IsResidue(InverseRoot(k))
  {
  }

  lemma ResiduesFrom3(k: int)
    requires 768 <= k < 1024
    ensures IsResidue(Root(k)) && IsResidue(InverseRoot(k))
  {
  }

  lemma InversesFrom0(k: int)
    requires 0 <= k < 64
    ensures Inverses(Root(k), InverseRoot(k))
  {
  }

  lemma InversesFrom1(k: int)
    requires 64 <= k < 128
    ensures Inverses(Root(k), InverseRoot(k))
  {
  }

  lemma InversesFrom2(k: int)
    requires 128 <= k < 192
    ensures Inverses(Root(k), InverseRoot(k))
  {
  }

  lemma InversesFrom3(k: int)
    requires 192 <= k < 256
    ensures Inverses(Root(k), InverseRoot(k))
  {
  }

  lemma InversesFrom4(k: int)
    requires 256 <= k < 320
    ensures Inverses(Root(k), InverseRoot(k))
  {
  }

  lemma InversesFrom5(k: int)
    requires 320 <= k < 384
    ensures Inverses(Root(k), InverseRoot(k))
  {
  }

  lemma InversesFrom6(k: int)
    requires 384 <= k < 448
    ensures Inverses(Root(k), InverseRoot(k))
  {
  }

  lemma InversesFrom7(k: int)
    requires 448 <= k < 512
    ensures Inverses(Root(k), InverseRoot(k))
  {
  }

  lemma InversesFrom8(k: int)
    requires 512 <= k < 576
    ensures Inverses(Root(k), InverseRoot(k))
  {
  }

  lemma InversesFrom9(k: int)
    requires 576 <= k < 640
    ensures Inverses(Root(k), InverseRoot(k))
  {
  }

  lemma InversesFrom10(k: int)
    requires 640 <= k < 704
    ensures Inverses(Root(k), InverseRoot(k))
  {
  }

  lemma InversesFrom11(k: int)
    requires 704 <= k < 768
    ensures Inverses(Root(k), InverseRoot(k))
  {
  }

  lemma InversesFrom12(k: int)
    requires 768 <= k < 832
    ensures Inverses(Root(k), InverseRoot(k))
  {
  }

  lemma InversesFrom13(k: int)
    requires 832 <= k < 896
    ensures Inverses(Root(k), InverseRoot(k))
  {
  }

  lemma InversesFrom14(k: int)
    requires 896 <= k < 960
    ensures Inverses(Root(k), InverseRoot(k))
  {
  }

  lemma InversesFrom15(k: int)
    requires 960 <= k < 1024
    ensures Inverses(Root(k), InverseRoot(k))
  {
  }

  lemma RootsFrom0(k: int)
    requires 1 <= k < 64
    ensures IsRoot(Root(2 * k), Root(k))
  {
  }

  lemma RootsFrom1(k: int)
    requires 64 <= k < 128
    ensures IsRoot(Root(2 * k), Root(k))
  {
  }

  lemma RootsFrom2(k: int)
    requires 128 <= k < 192
    ensures IsRoot(Root(2 * k), Root(k))
  {
  }

  lemma RootsFrom3(k: int)
    requires 192 <= k < 256
    ensures IsRoot(Root(2 * k), Root(k))
  {
  }

  lemma RootsFrom4(k: int)
    requires 256 <= k < 320
    ensures IsRoot(Root(2 * k), Root(k))
  {
  }

  lemma RootsFrom5(k: int)
    requires 320 <= k < 384
    ensures IsRoot(Root(2 * k), Root(k))
  {
  }

  lemma RootsFrom6(k: int)
    requires 384 <= k < 448
    ensures IsRoot(Root(2 * k), Root(k))
  {
  }

  lemma RootsFrom7(k: int)
    requires 448 <= k < 512
    ensures IsRoot(Root(2 * k), Root(k))
  {
  }

  lemma NegatedFrom0(k: int)
    requires 1 <= k < 64
    ensures IsRoot(Root(2 * k + 1), -Root(k))
  {
  }

  lemma NegatedFrom1(k: int)
    requires 64 <= k < 128
    ensures IsRoot(Root(2 * k + 1), -Root(k))
  {
  }

  lemma NegatedFrom2(k: int)
    requires 128 <= k < 192
    ensures IsRoot(Root(2 * k + 1), -Root(k))
  {
  }

  lemma NegatedFrom3(k: int)
    requires 192 <= k < 256
    ensures IsRoot(Root(2 * k + 1), -Root(k))
  {
  }

  lemma NegatedFrom4(k: int)
    requires 256 <= k < 320
    ensures IsRoot(Root(2 * k + 1), -Root(k))
  {
  }

  lemma NegatedFrom5(k: int)
    requires 320 <= k < 384
    ensures IsRoot(Root(2 * k + 1), -Root(k))
  {
  }

  lemma NegatedFrom6(k: int)
    requires 384 <= k < 448
    ensures IsRoot(Root(2 * k + 1), -Root(k))
  {
  }

  lemma NegatedFrom7(k: int)
    requires 448 <= k < 512
    ensures IsRoot(Root(2 * k + 1), -Root(k))
  {
  }

  lemma EveryResidue(k: int)
    requires 0 <= k < DEGREE
    ensures IsResidue(Root(k)) && IsResidue(InverseRoot(k))
  {
    if k < 512 {
      if k < 256 {
        ResiduesFrom0(k);
      } else {
        ResiduesFrom1(k);
      }
    } else {
      if k < 768 {
        ResiduesFrom2(k);
      } else {
        ResiduesFrom3(k);
      }
    }
  }

  /** The two tables are inverse to each other in Montgomery form. */
  lemma EveryInverse(k: int)
    requires 0 <= k < DEGREE
    ensures Inverses(Root(k), InverseRoot(k))
  {
    if k < 512 {
      if k < 256 {
        if k < 128 {
          if k < 64 {
            InversesFrom0(k);
          } else {
            InversesFrom1(k);
          }
        } else {
          if k < 192 {
            InversesFrom2(k);
          } else {
            InversesFrom3(k);
          }
        }
      } else {
        if k < 384 {
          if k < 320 {
            InversesFrom4(k);
          } else {
            InversesFrom5(k);
          }
        } else {
          if k < 448 {
            InversesFrom6(k);
          } else {
            InversesFrom7(k);
          }
        }
      }
    } else {
      if k < 768 {
        if k < 640 {
          if k < 576 {
            InversesFrom8(k);
          } else {
            InversesFrom9(k);
          }
        } else {
          if k < 704 {
            InversesFrom10(k);
          } else {
            InversesFrom11(k);
          }
        }
      } else {
        if k < 896 {
          if k < 832 {
            InversesFrom12(k);
          } else {
            InversesFrom13(k);
          }
        } else {
          if k < 960 {
            InversesFrom14(k);
          } else {
            InversesFrom15(k);
          }
        }
      }
    }
  }

  lemma EveryRoot(k: int)
    requires 1 <= k < DEGREE / 2
    ensures IsRoot(Root(2 * k), Root(k))
  {
    if k < 256 {
      if k < 128 {
        if k < 64 {
          RootsFrom0(k);
        } else {
          RootsFrom1(k);
        }
      } else {
        if k < 192 {
          RootsFrom2(k);
        } else {
          RootsFrom3(k);
        }
      }
    } else {
      if k < 384 {
        if k < 320 {
          RootsFrom4(k);
        } else {
          RootsFrom5(k);
        }
      } else {
        if k < 448 {
          RootsFrom6(k);
        } else {
          RootsFrom7(k);
        }
      }
    }
  }

  lemma EveryNegatedRoot(k: int)
    requires 1 <= k < DEGREE / 2
    ensures IsRoot(Root(2 * k + 1), -Root(k))
  {
    if k < 256 {
      if k < 128 {
        if k < 64 {
          NegatedFrom0(k);
        } else {
          NegatedFrom1(k);
        }
      } else {
        if k < 192 {
          NegatedFrom2(k);
        } else {
          NegatedFrom3(k);
        }
      }
    } else {
      if k < 384 {
        if k < 320 {
          NegatedFrom4(k);
        } else {
          NegatedFrom5(k);
        }
      } else {
        if k < 448 {
          NegatedFrom6(k);
        } else {
          NegatedFrom7(k);
        }
      }
    }
  }

  // ----- the tables as sequences

  function Roots(): (t: seq<int>)
    ensures |t| == DEGREE && forall k :: 0 <= k < DEGREE ==> t[k] == Root(k)
  {
    seq(DEGREE, k => Root(k))
  }

  function Iroots(): (t: seq<int>)
    ensures |t| == DEGREE && forall k :: 0 <= k < DEGREE ==> t[k] == InverseRoot(k)
  {
    seq(DEGREE, k => InverseRoot(k))
  }

  /** A square root in Montgomery form is a square root. */
  lemma FromMontgomerySquare(left: int, c: int)
    requires IsRoot(left, c)
    ensures Cong(Square(left * WINV), c * WINV, Q)
  {
    ResidueCong(left * left * WINV, c);
    CongScale(left * left * WINV, c, WINV, Q);
    assert (left * left * WINV) * WINV == Square(left * WINV);
  }

  lemma SplitMeaning(s: int, left: int, right: int)
    requires IsRoot(left, s) && IsRoot(right, -s)
    ensures Splitting(s, left, right)
  {
    FromMontgomerySquare(left, s);
    FromMontgomerySquare(right, -s);
    assert (-s) * WINV == -(s * WINV);
  }

  lemma FirstEntries()
    ensures Root(1) == 11183 && InverseRoot(1) == 1106
  {
  }

  lemma FirstRoot()
    ensures Cong(Square(Root(1) * WINV), -1, Q) && (INVPR - INV * InverseRoot(1) * WINV) % Q == 0
  {
    FirstEntries();
  }

  /** The tables of the source satisfy every hypothesis of the transforms. */
  lemma TablesLawful()
    ensures RootTable(Roots()) && RootTable(Iroots()) && InverseRoots(Roots(), Iroots())
    ensures RootTree(Roots()) && LastRoot(Iroots())
  {
    forall k | 0 <= k < DEGREE ensures Inverses(Root(k), InverseRoot(k)) {
      EveryInverse(k);
    }
    FirstRoot();
    TreeOfRoots(Roots());
    var r, i := Roots(), Iroots();
    forall k | 0 <= k < |r| ensures (r[k] * i[k] - W * W) % Q == 0 && 0 <= r[k] < Q && 0 <= i[k] < Q {
      assert Inverses(Root(k), InverseRoot(k));
      EveryResidue(k);
    }
  }

  lemma TreeOfRoots(t: seq<int>)
    requires |t| == DEGREE && forall k :: 0 <= k < DEGREE ==> t[k] == Root(k)
    ensures RootTree(t)
  {
    FirstRoot();
    forall k | 1 <= k < |t| && 2 * k + 1 < |t| ensures Splitting(t[k], t[2 * k], t[2 * k + 1]) {
      EveryRoot(k);
      EveryNegatedRoot(k);
      SplitMeaning(Root(k), Root(2 * k), Root(2 * k + 1));
    }
  }

  // ----- the transforms with these tables

  /** The transforms of the source invert each other. */
  method RoundTripWithTables(x: array<int>)
    requires x.Length == DEGREE && Bounded(x[..], 2 * Q)
    modifies x
    ensures forall j :: 0 <= j < DEGREE ==> x[j] == old(x[j]) % Q
  {
    TablesLawful();
    NttRoundTrip(x, Roots(), Iroots());
  }

  /** Together with `poly_mul` they multiply polynomials modulo x^1024 + 1 and modulo q. */
  method MultiplyWithTables(a: array<int>, b: array<int>)
    requires a != b && a.Length == b.Length == DEGREE && Bounded(a[..], 2 * Q) && Bounded(b[..], 2 * Q)
    modifies a, b
    ensures forall k :: 0 <= k < DEGREE ==> a[k] == Negacyclic(old(a[..]), old(b[..]))[k] % Q
  {
    TablesLawful();
    Multiply(a, b, Roots(), Iroots());
  }
}
