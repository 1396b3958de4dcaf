/** Multipliers of the jumps the period and the stream spacing rest on. Each line adds two known jumps:
    i steps multiply by a, j steps multiply by b, so i + j steps multiply by c. */
module LehmerJumps {
  import opened Lehmer

  lemma JumpsTo42966()
    ensures Multiplies(2, 182605794)
    ensures Multiplies(4, 1914720637)
    ensures Multiplies(64, 719080959)
    ensures Multiplies(2052, 254938945)
    ensures Multiplies(34116, 1658376632)
    ensures Multiplies(42966, 1377541393)
  {
    MultipliesOne();
    MultipliesSum(1, 48271, 1, 48271, 182605794);
    MultipliesSum(2, 182605794, 2, 182605794, 1914720637);
    MultipliesSum(4, 1914720637, 4, 1914720637, 854716505);
    MultipliesSum(8, 854716505, 8, 854716505, 1098894339);
    MultipliesSum(16, 1098894339, 16, 1098894339, 890442452);
    MultipliesSum(32, 890442452, 32, 890442452, 719080959);
    MultipliesSum(64, 719080959, 64, 719080959, 1617261148);
    MultipliesSum(128, 1617261148, 128, 1617261148, 944147713);
    MultipliesSum(256, 944147713, 256, 944147713, 1928592452);
    MultipliesSum(512, 1928592452, 2, 182605794, 1273898355);
    MultipliesSum(514, 1273898355, 512, 1928592452, 511245223);
    MultipliesSum(1026, 511245223, 1026, 511245223, 254938945);
    MultipliesSum(2052, 254938945, 2052, 254938945, 370834856);
    MultipliesSum(4104, 370834856, 4104, 370834856, 664706797);
    MultipliesSum(8208, 664706797, 514, 1273898355, 1068317);
    MultipliesSum(8722, 1068317, 128, 1617261148, 347072301);
    MultipliesSum(8850, 347072301, 8208, 664706797, 1186203113);
    MultipliesSum(17058, 1186203113, 17058, 1186203113, 1658376632);
    MultipliesSum(34116, 1658376632, 8850, 347072301, 1377541393);
  }

  lemma JumpsTo49981()
    ensures Multiplies(2648, 1205396067)
    ensures Multiplies(5296, 1637285100)
    ensures Multiplies(49981, 54463841)
  {
    MultipliesOne();
    JumpsTo42966();
    MultipliesSum(64, 719080959, 2, 182605794, 163677341);
    MultipliesSum(66, 163677341, 66, 163677341, 1143645057);
    MultipliesSum(132, 1143645057, 132, 1143645057, 990831342);
    MultipliesSum(264, 990831342, 66, 163677341, 1561475468);
    MultipliesSum(330, 1561475468, 1, 48271, 1601273422);
    MultipliesSum(331, 1601273422, 331, 1601273422, 1784134625);
    MultipliesSum(662, 1784134625, 662, 1784134625, 1764362000);
    MultipliesSum(1324, 1764362000, 1324, 1764362000, 1205396067);
    MultipliesSum(2648, 1205396067, 2648, 1205396067, 1637285100);
    MultipliesSum(5296, 1637285100, 5296, 1637285100, 14222081);
    MultipliesSum(10592, 14222081, 5296, 1637285100, 188691759);
    MultipliesSum(15888, 188691759, 662, 1784134625, 548937938);
    MultipliesSum(16550, 548937938, 16550, 548937938, 980567435);
    MultipliesSum(33100, 980567435, 16550, 548937938, 625414313);
    MultipliesSum(49650, 625414313, 331, 1601273422, 54463841);
  }

  lemma JumpsBy341()
    ensures Multiplies(99962, 1552290416)
    ensures Multiplies(399848, 268078900)
    ensures Multiplies(17043521, 1166718992)
  {
    JumpsTo49981();
    MultipliesSum(49981, 54463841, 49981, 54463841, 1552290416);
    MultipliesSum(99962, 1552290416, 99962, 1552290416, 292894704);
    MultipliesSum(199924, 292894704, 199924, 292894704, 268078900);
    MultipliesSum(399848, 268078900, 399848, 268078900, 464111256);
    MultipliesSum(799696, 464111256, 799696, 464111256, 1689910071);
    MultipliesSum(1599392, 1689910071, 1599392, 1689910071, 1397132433);
    MultipliesSum(3198784, 1397132433, 199924, 292894704, 620204156);
    MultipliesSum(3398708, 620204156, 3398708, 620204156, 192994342);
    MultipliesSum(6797416, 192994342, 6797416, 192994342, 676986164);
    MultipliesSum(13594832, 676986164, 3398708, 620204156, 1389838233);
    MultipliesSum(16993540, 1389838233, 49981, 54463841, 1166718992);
  }

  lemma JumpsToPeriod()
    ensures Multiplies(306783378, 1752599774)
    ensures Multiplies(715827882, 634005911)
    ensures Multiplies(1073741823, 2147483646)
    ensures Multiplies(2147483646, 1)
  {
    JumpsBy341();
    MultipliesSum(17043521, 1166718992, 17043521, 1166718992, 996091335);
    MultipliesSum(34087042, 996091335, 34087042, 996091335, 1691295294);
    MultipliesSum(68174084, 1691295294, 68174084, 1691295294, 725321065);
    MultipliesSum(136348168, 725321065, 136348168, 725321065, 411459169);
    MultipliesSum(272696336, 411459169, 34087042, 996091335, 1752599774);
    MultipliesSum(272696336, 411459169, 272696336, 411459169, 621433139);
    MultipliesSum(545392672, 621433139, 136348168, 725321065, 1638825358);
    MultipliesSum(681740840, 1638825358, 34087042, 996091335, 634005911);
    MultipliesSum(272696336, 411459169, 68174084, 1691295294, 2002379345);
    MultipliesSum(340870420, 2002379345, 17043521, 1166718992, 634005912);
    MultipliesSum(715827882, 634005911, 357913941, 634005912, 2147483646);
    MultipliesSum(715827882, 634005911, 715827882, 634005911, 1513477735);
    MultipliesSum(1431655764, 1513477735, 715827882, 634005911, 1);
  }

  lemma JumpToPeriodOver331()
    ensures Multiplies(85932, 446644820)
    ensures Multiplies(1374912, 435279548)
    ensures Multiplies(6487866, 1627574666)
  {
    JumpsTo42966();
    MultipliesSum(42966, 1377541393, 42966, 1377541393, 446644820);
    MultipliesSum(85932, 446644820, 85932, 446644820, 185656489);
    MultipliesSum(171864, 185656489, 171864, 185656489, 1750229272);
    MultipliesSum(343728, 1750229272, 343728, 1750229272, 758727948);
    MultipliesSum(687456, 758727948, 687456, 758727948, 435279548);
    MultipliesSum(1374912, 435279548, 687456, 758727948, 1262312958);
    MultipliesSum(2062368, 1262312958, 85932, 446644820, 1053190055);
    MultipliesSum(2148300, 1053190055, 2148300, 1053190055, 51721956);
    MultipliesSum(4296600, 51721956, 2148300, 1053190055, 969382050);
    MultipliesSum(6444900, 969382050, 42966, 1377541393, 1627574666);
  }

  lemma JumpToPeriodOver151()
    ensures Multiplies(2835756, 1889121659)
    ensures Multiplies(14221746, 556613938)
  {
    JumpToPeriodOver331();
    JumpsTo42966();
    MultipliesSum(1374912, 435279548, 1374912, 435279548, 1062804189);
    MultipliesSum(2749824, 1062804189, 85932, 446644820, 1889121659);
    MultipliesSum(2835756, 1889121659, 2835756, 1889121659, 1891295045);
    MultipliesSum(5671512, 1891295045, 5671512, 1891295045, 1984258084);
    MultipliesSum(11343024, 1984258084, 2835756, 1889121659, 2111660040);
    MultipliesSum(14178780, 2111660040, 42966, 1377541393, 556613938);
  }

  lemma JumpToPeriodOver31()
    ensures Multiplies(499810, 1282744904)
    ensures Multiplies(1099582, 421539574)
    ensures Multiplies(4398328, 169950125)
    ensures Multiplies(69273666, 64)
  {
    JumpsBy341();
    JumpsTo49981();
    MultipliesSum(399848, 268078900, 99962, 1552290416, 1282744904);
    MultipliesSum(499810, 1282744904, 49981, 54463841, 885525946);
    MultipliesSum(549791, 885525946, 549791, 885525946, 421539574);
    MultipliesSum(1099582, 421539574, 1099582, 421539574, 1460399827);
    MultipliesSum(2199164, 1460399827, 2199164, 1460399827, 169950125);
    MultipliesSum(4398328, 169950125, 4398328, 169950125, 1968205020);
    MultipliesSum(8796656, 1968205020, 8796656, 1968205020, 995071643);
    MultipliesSum(17593312, 995071643, 4398328, 169950125, 1764433326);
    MultipliesSum(21991640, 1764433326, 1099582, 421539574, 388539997);
    MultipliesSum(23091222, 388539997, 23091222, 388539997, 593323643);
    MultipliesSum(46182444, 593323643, 23091222, 388539997, 64);
  }

  lemma JumpToPeriodOver11()
    ensures Multiplies(195225786, 219454379)
  {
    JumpToPeriodOver31();
    JumpsTo49981();
    MultipliesSum(499810, 1282744904, 499810, 1282744904, 1209186342);
    MultipliesSum(999620, 1209186342, 499810, 1282744904, 1579411568);
    MultipliesSum(1499430, 1579411568, 49981, 54463841, 73136486);
    MultipliesSum(1549411, 73136486, 1549411, 73136486, 1906415184);
    MultipliesSum(3098822, 1906415184, 3098822, 1906415184, 1841427042);
    MultipliesSum(6197644, 1841427042, 6197644, 1841427042, 794747954);
    MultipliesSum(12395288, 794747954, 12395288, 794747954, 1302925233);
    MultipliesSum(24790576, 1302925233, 24790576, 1302925233, 1640398477);
    MultipliesSum(49581152, 1640398477, 12395288, 794747954, 1617930774);
    MultipliesSum(61976440, 1617930774, 3098822, 1906415184, 335568059);
    MultipliesSum(65075262, 335568059, 65075262, 335568059, 1555500435);
    MultipliesSum(130150524, 1555500435, 65075262, 335568059, 219454379);
  }

  lemma JumpBetweenStreams()
    ensures Multiplies(8367782, 22925)
  {
    JumpToPeriodOver31();
    JumpToPeriodOver151();
    JumpsTo42966();
    MultipliesSum(4398328, 169950125, 2835756, 1889121659, 1081555820);
    MultipliesSum(7234084, 1081555820, 1099582, 421539574, 1701314776);
    MultipliesSum(8333666, 1701314776, 34116, 1658376632, 22925);
  }

  lemma JumpOfTest()
    ensures Multiplies(10000, 399268537)
  {
    JumpsTo49981();
    JumpsTo42966();
    MultipliesSum(5296, 1637285100, 2648, 1205396067, 445858548);
    MultipliesSum(7944, 445858548, 2052, 254938945, 1126167165);
    MultipliesSum(9996, 1126167165, 4, 1914720637, 399268537);
  }
}
