/** src/timeutils.c: the table of the days before each year, row by row as it stands there, each row
    proved to hold what the leap-year rule gives. */
module YearTable {

  /** Days from 1 January 1970 to 1 January of the year 1970 + i, from the leap-year terms of the "Seconds
      Since the Epoch" formula of POSIX.1-2017, Base Definitions, section 4.16. */
  function DaysBefore(i: nat): int {
    365 * i + (i + 1) / 4 - (i + 69) / 100 + (i + 369) / 400
  }

  const YEARS: nat := 631

  /** The entry for the year 1970 + i. */
  function YearLookup(i: nat): (days: nat)
    requires i < YEARS
    ensures days == DaysBefore(i)
  {
    hide DaysBefore;
    var r, j := i / 14, i % 14;
    match r
    case 0 => Row00(j)
    case 1 => Row01(j)
    case 2 => Row02(j)
    case 3 => Row03(j)
    case 4 => Row04(j)
    case 5 => Row05(j)
    case 6 => Row06(j)
    case 7 => Row07(j)
    case 8 => Row08(j)
    case 9 => Row09(j)
    case 10 => Row10(j)
    case 11 => Row11(j)
    case 12 => Row12(j)
    case 13 => Row13(j)
    case 14 => Row14(j)
    case 15 => Row15(j)
    case 16 => Row16(j)
    case 17 => Row17(j)
    case 18 => Row18(j)
    case 19 => Row19(j)
    case 20 => Row20(j)
    case 21 => Row21(j)
    case 22 => Row22(j)
    case 23 => Row23(j)
    case 24 => Row24(j)
    case 25 => Row25(j)
    case 26 => Row26(j)
    case 27 => Row27(j)
    case 28 => Row28(j)
    case 29 => Row29(j)
    case 30 => Row30(j)
    case 31 => Row31(j)
    case 32 => Row32(j)
    case 33 => Row33(j)
    case 34 => Row34(j)
    case 35 => Row35(j)
    case 36 => Row36(j)
    case 37 => Row37(j)
    case 38 => Row38(j)
    case 39 => Row39(j)
    case 40 => Row40(j)
    case 41 => Row41(j)
    case 42 => Row42(j)
    case 43 => Row43(j)
    case 44 => Row44(j)
    case _ => Row45()
  }

  function Row00(j: nat): (days: nat)
    requires j < 14
    ensures days == DaysBefore(0 + j)
  {
    match j
    case 0 => 0 case 1 => 365 case 2 => 730 case 3 => 1096 case 4 => 1461 case 5 => 1826 case 6 => 2191
    case 7 => 2557 case 8 => 2922 case 9 => 3287 case 10 => 3652 case 11 => 4018 case 12 => 4383 case _ => 4748
  }

  function Row01(j: nat): (days: nat)
    requires j < 14
    ensures days == DaysBefore(14 + j)
  {
    match j
    case 0 => 5113 case 1 => 5479 case 2 => 5844 case 3 => 6209 case 4 => 6574 case 5 => 6940 case 6 => 7305
    case 7 => 7670 case 8 => 8035 case 9 => 8401 case 10 => 8766 case 11 => 9131 case 12 => 9496 case _ => 9862
  }

  function Row02(j: nat): (days: nat)
    requires j < 14
    ensures days == DaysBefore(28 + j)
  {
    match j
    case 0 => 10227 case 1 => 10592 case 2 => 10957 case 3 => 11323 case 4 => 11688 case 5 => 12053 case 6 => 12418
    case 7 => 12784 case 8 => 13149 case 9 => 13514 case 10 => 13879 case 11 => 14245 case 12 => 14610 case _ => 14975
  }

  function Row03(j: nat): (days: nat)
    requires j < 14
    ensures days == DaysBefore(42 + j)
  {
    match j
    case 0 => 15340 case 1 => 15706 case 2 => 16071 case 3 => 16436 case 4 => 16801 case 5 => 17167 case 6 => 17532
    case 7 => 17897 case 8 => 18262 case 9 => 18628 case 10 => 18993 case 11 => 19358 case 12 => 19723 case _ => 20089
  }

  function Row04(j: nat): (days: nat)
    requires j < 14
    ensures days == DaysBefore(56 + j)
  {
    match j
    case 0 => 20454 case 1 => 20819 case 2 => 21184 case 3 => 21550 case 4 => 21915 case 5 => 22280 case 6 => 22645
    case 7 => 23011 case 8 => 23376 case 9 => 23741 case 10 => 24106 case 11 => 24472 case 12 => 24837 case _ => 25202
  }

  function Row05(j: nat): (days: nat)
    requires j < 14
    ensures days == DaysBefore(70 + j)
  {
    match j
    case 0 => 25567 case 1 => 25933 case 2 => 26298 case 3 => 26663 case 4 => 27028 case 5 => 27394 case 6 => 27759
    case 7 => 28124 case 8 => 28489 case 9 => 28855 case 10 => 29220 case 11 => 29585 case 12 => 29950 case _ => 30316
  }

  function Row06(j: nat): (days: nat)
    requires j < 14
    ensures days == DaysBefore(84 + j)
  {
    match j
    case 0 => 30681 case 1 => 31046 case 2 => 31411 case 3 => 31777 case 4 => 32142 case 5 => 32507 case 6 => 32872
    case 7 => 33238 case 8 => 33603 case 9 => 33968 case 10 => 34333 case 11 => 34699 case 12 => 35064 case _ => 35429
  }

  function Row07(j: nat): (days: nat)
    requires j < 14
    ensures days == DaysBefore(98 + j)
  {
    match j
    case 0 => 35794 case 1 => 36160 case 2 => 36525 case 3 => 36890 case 4 => 37255 case 5 => 37621 case 6 => 37986
    case 7 => 38351 case 8 => 38716 case 9 => 39082 case 10 => 39447 case 11 => 39812 case 12 => 40177 case _ => 40543
  }

  function Row08(j: nat): (days: nat)
    requires j < 14
    ensures days == DaysBefore(112 + j)
  {
    match j
    case 0 => 40908 case 1 => 41273 case 2 => 41638 case 3 => 42004 case 4 => 42369 case 5 => 42734 case 6 => 43099
    case 7 => 43465 case 8 => 43830 case 9 => 44195 case 10 => 44560 case 11 => 44926 case 12 => 45291 case _ => 45656
  }

  function Row09(j: nat): (days: nat)
    requires j < 14
    ensures days == DaysBefore(126 + j)
  {
    match j
    case 0 => 46021 case 1 => 46387 case 2 => 46752 case 3 => 47117 case 4 => 47482 case 5 => 47847 case 6 => 48212
    case 7 => 48577 case 8 => 48942 case 9 => 49308 case 10 => 49673 case 11 => 50038 case 12 => 50403 case _ => 50769
  }

  function Row10(j: nat): (days: nat)
    requires j < 14
    ensures days == DaysBefore(140 + j)
  {
    match j
    case 0 => 51134 case 1 => 51499 case 2 => 51864 case 3 => 52230 case 4 => 52595 case 5 => 52960 case 6 => 53325
    case 7 => 53691 case 8 => 54056 case 9 => 54421 case 10 => 54786 case 11 => 55152 case 12 => 55517 case _ => 55882
  }

  function Row11(j: nat): (days: nat)
    requires j < 14
    ensures days == DaysBefore(154 + j)
  {
    match j
    case 0 => 56247 case 1 => 56613 case 2 => 56978 case 3 => 57343 case 4 => 57708 case 5 => 58074 case 6 => 58439
    case 7 => 58804 case 8 => 59169 case 9 => 59535 case 10 => 59900 case 11 => 60265 case 12 => 60630 case _ => 60996
  }

  function Row12(j: nat): (days: nat)
    requires j < 14
    ensures days == DaysBefore(168 + j)
  {
    match j
    case 0 => 61361 case 1 => 61726 case 2 => 62091 case 3 => 62457 case 4 => 62822 case 5 => 63187 case 6 => 63552
    case 7 => 63918 case 8 => 64283 case 9 => 64648 case 10 => 65013 case 11 => 65379 case 12 => 65744 case _ => 66109
  }

  function Row13(j: nat): (days: nat)
    requires j < 14
    ensures days == DaysBefore(182 + j)
  {
    match j
    case 0 => 66474 case 1 => 66840 case 2 => 67205 case 3 => 67570 case 4 => 67935 case 5 => 68301 case 6 => 68666
    case 7 => 69031 case 8 => 69396 case 9 => 69762 case 10 => 70127 case 11 => 70492 case 12 => 70857 case _ => 71223
  }

  function Row14(j: nat): (days: nat)
    requires j < 14
    ensures days == DaysBefore(196 + j)
  {
    match j
    case 0 => 71588 case 1 => 71953 case 2 => 72318 case 3 => 72684 case 4 => 73049 case 5 => 73414 case 6 => 73779
    case 7 => 74145 case 8 => 74510 case 9 => 74875 case 10 => 75240 case 11 => 75606 case 12 => 75971 case _ => 76336
  }

  function Row15(j: nat): (days: nat)
    requires j < 14
    ensures days == DaysBefore(210 + j)
  {
    match j
    case 0 => 76701 case 1 => 77067 case 2 => 77432 case 3 => 77797 case 4 => 78162 case 5 => 78528 case 6 => 78893
    case 7 => 79258 case 8 => 79623 case 9 => 79989 case 10 => 80354 case 11 => 80719 case 12 => 81084 case _ => 81450
  }

  function Row16(j: nat): (days: nat)
    requires j < 14
    ensures days == DaysBefore(224 + j)
  {
    match j
    case 0 => 81815 case 1 => 82180 case 2 => 82545 case 3 => 82911 case 4 => 83276 case 5 => 83641 case 6 => 84006
    case 7 => 84371 case 8 => 84736 case 9 => 85101 case 10 => 85466 case 11 => 85832 case 12 => 86197 case _ => 86562
  }

  function Row17(j: nat): (days: nat)
    requires j < 14
    ensures days == DaysBefore(238 + j)
  {
    match j
    case 0 => 86927 case 1 => 87293 case 2 => 87658 case 3 => 88023 case 4 => 88388 case 5 => 88754 case 6 => 89119
    case 7 => 89484 case 8 => 89849 case 9 => 90215 case 10 => 90580 case 11 => 90945 case 12 => 91310 case _ => 91676
  }

  function Row18(j: nat): (days: nat)
    requires j < 14
    ensures days == DaysBefore(252 + j)
  {
    match j
    case 0 => 92041 case 1 => 92406 case 2 => 92771 case 3 => 93137 case 4 => 93502 case 5 => 93867 case 6 => 94232
    case 7 => 94598 case 8 => 94963 case 9 => 95328 case 10 => 95693 case 11 => 96059 case 12 => 96424 case _ => 96789
  }

  function Row19(j: nat): (days: nat)
    requires j < 14
    ensures days == DaysBefore(266 + j)
  {
    match j
    case 0 => 97154 case 1 => 97520 case 2 => 97885 case 3 => 98250 case 4 => 98615 case 5 => 98981 case 6 => 99346
    case 7 => 99711 case 8 => 100076 case 9 => 100442 case 10 => 100807 case 11 => 101172 case 12 => 101537 case _ => 101903
  }

  function Row20(j: nat): (days: nat)
    requires j < 14
    ensures days == DaysBefore(280 + j)
  {
    match j
    case 0 => 102268 case 1 => 102633 case 2 => 102998 case 3 => 103364 case 4 => 103729 case 5 => 104094 case 6 => 104459
    case 7 => 104825 case 8 => 105190 case 9 => 105555 case 10 => 105920 case 11 => 106286 case 12 => 106651 case _ => 107016
  }

  function Row21(j: nat): (days: nat)
    requires j < 14
    ensures days == DaysBefore(294 + j)
  {
    match j
    case 0 => 107381 case 1 => 107747 case 2 => 108112 case 3 => 108477 case 4 => 108842 case 5 => 109208 case 6 => 109573
    case 7 => 109938 case 8 => 110303 case 9 => 110669 case 10 => 111034 case 11 => 111399 case 12 => 111764 case _ => 112130
  }

  function Row22(j: nat): (days: nat)
    requires j < 14
    ensures days == DaysBefore(308 + j)
  {
    match j
    case 0 => 112495 case 1 => 112860 case 2 => 113225 case 3 => 113591 case 4 => 113956 case 5 => 114321 case 6 => 114686
    case 7 => 115052 case 8 => 115417 case 9 => 115782 case 10 => 116147 case 11 => 116513 case 12 => 116878 case _ => 117243
  }

  function Row23(j: nat): (days: nat)
    requires j < 14
    ensures days == DaysBefore(322 + j)
  {
    match j
    case 0 => 117608 case 1 => 117974 case 2 => 118339 case 3 => 118704 case 4 => 119069 case 5 => 119435 case 6 => 119800
    case 7 => 120165 case 8 => 120530 case 9 => 120895 case 10 => 121260 case 11 => 121625 case 12 => 121990 case _ => 122356
  }

  function Row24(j: nat): (days: nat)
    requires j < 14
    ensures days == DaysBefore(336 + j)
  {
    match j
    case 0 => 122721 case 1 => 123086 case 2 => 123451 case 3 => 123817 case 4 => 124182 case 5 => 124547 case 6 => 124912
    case 7 => 125278 case 8 => 125643 case 9 => 126008 case 10 => 126373 case 11 => 126739 case 12 => 127104 case _ => 127469
  }

  function Row25(j: nat): (days: nat)
    requires j < 14
    ensures days == DaysBefore(350 + j)
  {
    match j
    case 0 => 127834 case 1 => 128200 case 2 => 128565 case 3 => 128930 case 4 => 129295 case 5 => 129661 case 6 => 130026
    case 7 => 130391 case 8 => 130756 case 9 => 131122 case 10 => 131487 case 11 => 131852 case 12 => 132217 case _ => 132583
  }

  function Row26(j: nat): (days: nat)
    requires j < 14
    ensures days == DaysBefore(364 + j)
  {
    match j
    case 0 => 132948 case 1 => 133313 case 2 => 133678 case 3 => 134044 case 4 => 134409 case 5 => 134774 case 6 => 135139
    case 7 => 135505 case 8 => 135870 case 9 => 136235 case 10 => 136600 case 11 => 136966 case 12 => 137331 case _ => 137696
  }

  function Row27(j: nat): (days: nat)
    requires j < 14
    ensures days == DaysBefore(378 + j)
  {
    match j
    case 0 => 138061 case 1 => 138427 case 2 => 138792 case 3 => 139157 case 4 => 139522 case 5 => 139888 case 6 => 140253
    case 7 => 140618 case 8 => 140983 case 9 => 141349 case 10 => 141714 case 11 => 142079 case 12 => 142444 case _ => 142810
  }

  function Row28(j: nat): (days: nat)
    requires j < 14
    ensures days == DaysBefore(392 + j)
  {
    match j
    case 0 => 143175 case 1 => 143540 case 2 => 143905 case 3 => 144271 case 4 => 144636 case 5 => 145001 case 6 => 145366
    case 7 => 145732 case 8 => 146097 case 9 => 146462 case 10 => 146827 case 11 => 147193 case 12 => 147558 case _ => 147923
  }

  function Row29(j: nat): (days: nat)
    requires j < 14
    ensures days == DaysBefore(406 + j)
  {
    match j
    case 0 => 148288 case 1 => 148654 case 2 => 149019 case 3 => 149384 case 4 => 149749 case 5 => 150115 case 6 => 150480
    case 7 => 150845 case 8 => 151210 case 9 => 151576 case 10 => 151941 case 11 => 152306 case 12 => 152671 case _ => 153037
  }

  function Row30(j: nat): (days: nat)
    requires j < 14
    ensures days == DaysBefore(420 + j)
  {
    match j
    case 0 => 153402 case 1 => 153767 case 2 => 154132 case 3 => 154498 case 4 => 154863 case 5 => 155228 case 6 => 155593
    case 7 => 155959 case 8 => 156324 case 9 => 156689 case 10 => 157054 case 11 => 157420 case 12 => 157785 case _ => 158150
  }

  function Row31(j: nat): (days: nat)
    requires j < 14
    ensures days == DaysBefore(434 + j)
  {
    match j
    case 0 => 158515 case 1 => 158881 case 2 => 159246 case 3 => 159611 case 4 => 159976 case 5 => 160342 case 6 => 160707
    case 7 => 161072 case 8 => 161437 case 9 => 161803 case 10 => 162168 case 11 => 162533 case 12 => 162898 case _ => 163264
  }

  function Row32(j: nat): (days: nat)
    requires j < 14
    ensures days == DaysBefore(448 + j)
  {
    match j
    case 0 => 163629 case 1 => 163994 case 2 => 164359 case 3 => 164725 case 4 => 165090 case 5 => 165455 case 6 => 165820
    case 7 => 166186 case 8 => 166551 case 9 => 166916 case 10 => 167281 case 11 => 167647 case 12 => 168012 case _ => 168377
  }

  function Row33(j: nat): (days: nat)
    requires j < 14
    ensures days == DaysBefore(462 + j)
  {
    match j
    case 0 => 168742 case 1 => 169108 case 2 => 169473 case 3 => 169838 case 4 => 170203 case 5 => 170569 case 6 => 170934
    case 7 => 171299 case 8 => 171664 case 9 => 172030 case 10 => 172395 case 11 => 172760 case 12 => 173125 case _ => 173491
  }

  function Row34(j: nat): (days: nat)
    requires j < 14
    ensures days == DaysBefore(476 + j)
  {
    match j
    case 0 => 173856 case 1 => 174221 case 2 => 174586 case 3 => 174952 case 4 => 175317 case 5 => 175682 case 6 => 176047
    case 7 => 176413 case 8 => 176778 case 9 => 177143 case 10 => 177508 case 11 => 177874 case 12 => 178239 case _ => 178604
  }

  function Row35(j: nat): (days: nat)
    requires j < 14
    ensures days == DaysBefore(490 + j)
  {
    match j
    case 0 => 178969 case 1 => 179335 case 2 => 179700 case 3 => 180065 case 4 => 180430 case 5 => 180796 case 6 => 181161
    case 7 => 181526 case 8 => 181891 case 9 => 182257 case 10 => 182622 case 11 => 182987 case 12 => 183352 case _ => 183718
  }

  function Row36(j: nat): (days: nat)
    requires j < 14
    ensures days == DaysBefore(504 + j)
  {
    match j
    case 0 => 184083 case 1 => 184448 case 2 => 184813 case 3 => 185179 case 4 => 185544 case 5 => 185909 case 6 => 186274
    case 7 => 186640 case 8 => 187005 case 9 => 187370 case 10 => 187735 case 11 => 188101 case 12 => 188466 case _ => 188831
  }

  function Row37(j: nat): (days: nat)
    requires j < 14
    ensures days == DaysBefore(518 + j)
  {
    match j
    case 0 => 189196 case 1 => 189562 case 2 => 189927 case 3 => 190292 case 4 => 190657 case 5 => 191023 case 6 => 191388
    case 7 => 191753 case 8 => 192118 case 9 => 192484 case 10 => 192849 case 11 => 193214 case 12 => 193579 case _ => 193944
  }

  function Row38(j: nat): (days: nat)
    requires j < 14
    ensures days == DaysBefore(532 + j)
  {
    match j
    case 0 => 194309 case 1 => 194674 case 2 => 195039 case 3 => 195405 case 4 => 195770 case 5 => 196135 case 6 => 196500
    case 7 => 196866 case 8 => 197231 case 9 => 197596 case 10 => 197961 case 11 => 198327 case 12 => 198692 case _ => 199057
  }

  function Row39(j: nat): (days: nat)
    requires j < 14
    ensures days == DaysBefore(546 + j)
  {
    match j
    case 0 => 199422 case 1 => 199788 case 2 => 200153 case 3 => 200518 case 4 => 200883 case 5 => 201249 case 6 => 201614
    case 7 => 201979 case 8 => 202344 case 9 => 202710 case 10 => 203075 case 11 => 203440 case 12 => 203805 case _ => 204171
  }

  function Row40(j: nat): (days: nat)
    requires j < 14
    ensures days == DaysBefore(560 + j)
  {
    match j
    case 0 => 204536 case 1 => 204901 case 2 => 205266 case 3 => 205632 case 4 => 205997 case 5 => 206362 case 6 => 206727
    case 7 => 207093 case 8 => 207458 case 9 => 207823 case 10 => 208188 case 11 => 208554 case 12 => 208919 case _ => 209284
  }

  function Row41(j: nat): (days: nat)
    requires j < 14
    ensures days == DaysBefore(574 + j)
  {
    match j
    case 0 => 209649 case 1 => 210015 case 2 => 210380 case 3 => 210745 case 4 => 211110 case 5 => 211476 case 6 => 211841
    case 7 => 212206 case 8 => 212571 case 9 => 212937 case 10 => 213302 case 11 => 213667 case 12 => 214032 case _ => 214398
  }

  function Row42(j: nat): (days: nat)
    requires j < 14
    ensures days == DaysBefore(588 + j)
  {
    match j
    case 0 => 214763 case 1 => 215128 case 2 => 215493 case 3 => 215859 case 4 => 216224 case 5 => 216589 case 6 => 216954
    case 7 => 217320 case 8 => 217685 case 9 => 218050 case 10 => 218415 case 11 => 218781 case 12 => 219146 case _ => 219511
  }

  function Row43(j: nat): (days: nat)
    requires j < 14
    ensures days == DaysBefore(602 + j)
  {
    match j
    case 0 => 219876 case 1 => 220242 case 2 => 220607 case 3 => 220972 case 4 => 221337 case 5 => 221703 case 6 => 222068
    case 7 => 222433 case 8 => 222798 case 9 => 223164 case 10 => 223529 case 11 => 223894 case 12 => 224259 case _ => 224625
  }

  function Row44(j: nat): (days: nat)
    requires j < 14
    ensures days == DaysBefore(616 + j)
  {
    match j
    case 0 => 224990 case 1 => 225355 case 2 => 225720 case 3 => 226086 case 4 => 226451 case 5 => 226816 case 6 => 227181
    case 7 => 227547 case 8 => 227912 case 9 => 228277 case 10 => 228642 case 11 => 229008 case 12 => 229373 case _ => 229738
  }

  function Row45(): (days: nat)
    ensures days == DaysBefore(630)
  {
    230103
  }
}
