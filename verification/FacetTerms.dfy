/**
 The Fibonacci terms as a decoder with 32-bit registers sees them: exact up to 46368, and never again under the
 16-bit cap within the 256 places a payload can reach, though they wrap many times.
 */
module FacetTerms {
  import opened Zeckendorf

  const WORD: nat := 0x1_0000_0000
  const CAP: nat := 0xFFFF

  datatype Pair = Pair(a: nat, b: nat)

  function Terms(i: nat): Pair {
    Pair(G(i) % WORD, G(i + 1) % WORD)
  }

  predicate LargeFrom(i: nat, n: nat) {
    forall j | i <= j < i + n :: G(j) % WORD > CAP
  }

  lemma SumWraps(x: nat, y: nat)
    ensures (x % WORD + y % WORD) % WORD == (x + y) % WORD
  {
  }

  lemma WrappedIsAtMost(x: nat)
    ensures x % WORD <= x
  {
  }

  /** One register step: the pair moves on, the sum taken modulo 2^32. */
  lemma NextTerm(i: nat, a: nat, b: nat, c: nat)
    requires Terms(i) == Pair(a, b) && c == (if a + b >= WORD then a + b - WORD else a + b)
    ensures Terms(i + 1) == Pair(b, c)
  {
    SumWraps(G(i), G(i + 1));
  }

  lemma Two(i: nat, a: nat, b: nat, c: nat, d: nat)
    requires Terms(i) == Pair(a, b) && Sum(a, b, c) && Sum(b, c, d) && a > CAP && b > CAP
    ensures Terms(i + 2) == Pair(c, d) && LargeFrom(i, 2)
  {
    NextTerm(i, a, b, c);
    NextTerm(i + 1, b, c, d);
  }

  lemma Four(i: nat, a: nat, b: nat, c: nat, d: nat, e: nat, f: nat)
    requires Terms(i) == Pair(a, b) && Sum(a, b, c) && Sum(b, c, d) && Sum(c, d, e) && Sum(d, e, f)
    requires a > CAP && b > CAP && c > CAP && d > CAP
    ensures Terms(i + 4) == Pair(e, f) && LargeFrom(i, 4)
  {
    Two(i, a, b, c, d);
    Two(i + 2, c, d, e, f);
  }

  predicate Sum(a: nat, b: nat, c: nat) {
    c == if a + b >= WORD then a + b - WORD else a + b
  }

  /** Eight places: the registers hold `a` to `h` there, all over the cap, and go on with `x` and `y`. */
  lemma Row(i: nat, a: nat, b: nat, c: nat, d: nat, e: nat, f: nat, g: nat, h: nat, x: nat, y: nat)
    requires Terms(i) == Pair(a, b) && Sum(a, b, c) && Sum(b, c, d) && Sum(c, d, e) && Sum(d, e, f)
    requires Sum(e, f, g) && Sum(f, g, h) && Sum(g, h, x) && Sum(h, x, y)
    requires a > CAP && b > CAP && c > CAP && d > CAP && e > CAP && f > CAP && g > CAP && h > CAP
    ensures Terms(i + 8) == Pair(x, y) && LargeFrom(i, 8)
  {
    Four(i, a, b, c, d, e, f);
    Four(i + 4, e, f, g, h, x, y);
  }

  /** Places 23 to 70, for `i` 23. */
  lemma Rows0(i: nat)
    requires Terms(i) == Pair(75025, 121393)
    ensures LargeFrom(i, 240)
  {
    Row(i, 75025, 121393, 196418, 317811, 514229, 832040, 1346269, 2178309, 3524578, 5702887);
    Row(i + 8, 3524578, 5702887, 9227465, 14930352, 24157817, 39088169, 63245986, 102334155, 165580141, 267914296);
    Row(i + 16, 165580141, 267914296, 433494437, 701408733, 1134903170, 1836311903, 2971215073, 512559680, 3483774753, 3996334433);
    Row(i + 24, 3483774753, 3996334433, 3185141890, 2886509027, 1776683621, 368225352, 2144908973, 2513134325, 363076002, 2876210327);
    Row(i + 32, 363076002, 2876210327, 3239286329, 1820529360, 764848393, 2585377753, 3350226146, 1640636603, 695895453, 2336532056);
    Row(i + 40, 695895453, 2336532056, 3032427509, 1073992269, 4106419778, 885444751, 696897233, 1582341984, 2279239217, 3861581201);
    Rows1(i + 48);
  }

  /** Places 71 to 118, for `i` 71. */
  lemma Rows1(i: nat)
    requires Terms(i) == Pair(2279239217, 3861581201)
    ensures LargeFrom(i, 192)
  {
    Row(i, 2279239217, 3861581201, 1845853122, 1412467027, 3258320149, 375819880, 3634140029, 4009959909, 3349132642, 3064125255);
    Row(i + 8, 3349132642, 3064125255, 2118290601, 887448560, 3005739161, 3893187721, 2603959586, 2202180011, 511172301, 2713352312);
    Row(i + 16, 511172301, 2713352312, 3224524613, 1642909629, 572466946, 2215376575, 2787843521, 708252800, 3496096321, 4204349121);
    Row(i + 24, 3496096321, 4204349121, 3405478146, 3314859971, 2425370821, 1445263496, 3870634317, 1020930517, 596597538, 1617528055);
    Row(i + 32, 596597538, 1617528055, 2214125593, 3831653648, 1750811945, 1287498297, 3038310242, 30841243, 3069151485, 3099992728);
    Row(i + 40, 3069151485, 3099992728, 1874176917, 679202349, 2553379266, 3232581615, 1490993585, 428607904, 1919601489, 2348209393);
    Rows2(i + 48);
  }

  /** Places 119 to 166, for `i` 119. */
  lemma Rows2(i: nat)
    requires Terms(i) == Pair(1919601489, 2348209393)
    ensures LargeFrom(i, 144)
  {
    Row(i, 1919601489, 2348209393, 4267810882, 2321052979, 2293896565, 319982248, 2613878813, 2933861061, 1252772578, 4186633639);
    Row(i + 8, 1252772578, 4186633639, 1144438921, 1036105264, 2180544185, 3216649449, 1102226338, 23908491, 1126134829, 1150043320);
    Row(i + 16, 1126134829, 1150043320, 2276178149, 3426221469, 1407432322, 538686495, 1946118817, 2484805312, 135956833, 2620762145);
    Row(i + 24, 135956833, 2620762145, 2756718978, 1082513827, 3839232805, 626779336, 171044845, 797824181, 968869026, 1766693207);
    Row(i + 32, 968869026, 1766693207, 2735562233, 207288144, 2942850377, 3150138521, 1798021602, 653192827, 2451214429, 3104407256);
    Row(i + 40, 2451214429, 3104407256, 1260654389, 70094349, 1330748738, 1400843087, 2731591825, 4132434912, 2569059441, 2406527057);
    Rows3(i + 48);
  }

  /** Places 167 to 214, for `i` 167. */
  lemma Rows3(i: nat)
    requires Terms(i) == Pair(2569059441, 2406527057)
    ensures LargeFrom(i, 96)
  {
    Row(i, 2569059441, 2406527057, 680619202, 3087146259, 3767765461, 2559944424, 2032742589, 297719717, 2330462306, 2628182023);
    Row(i + 8, 2330462306, 2628182023, 663677033, 3291859056, 3955536089, 2952427849, 2612996642, 1270457195, 3883453837, 858943736);
    Row(i + 16, 3883453837, 858943736, 447430277, 1306374013, 1753804290, 3060178303, 519015297, 3579193600, 4098208897, 3382435201);
    Row(i + 24, 4098208897, 3382435201, 3185676802, 2273144707, 1163854213, 3436998920, 305885837, 3742884757, 4048770594, 3496688055);
    Row(i + 32, 4048770594, 3496688055, 3250491353, 2452212112, 1407736169, 3859948281, 972717154, 537698139, 1510415293, 2048113432);
    Row(i + 40, 1510415293, 2048113432, 3558528725, 1311674861, 575236290, 1886911151, 2462147441, 54091296, 2516238737, 2570330033);
    Rows4(i + 48);
  }

  /** Places 215 to 262, for `i` 215. */
  lemma Rows4(i: nat)
    requires Terms(i) == Pair(2516238737, 2570330033)
    ensures LargeFrom(i, 48)
  {
    Row(i, 2516238737, 2570330033, 791601474, 3361931507, 4153532981, 3220497192, 3079062877, 2004592773, 788688354, 2793281127);
    Row(i + 8, 788688354, 2793281127, 3581969481, 2080283312, 1367285497, 3447568809, 519887010, 3967455819, 192375533, 4159831352);
    Row(i + 16, 192375533, 4159831352, 57239589, 4217070941, 4274310530, 4196414175, 4175757409, 4077204288, 3957994401, 3740231393);
    Row(i + 24, 3957994401, 3740231393, 3403258498, 2848522595, 1956813797, 510369096, 2467182893, 2977551989, 1149767586, 4127319575);
    Row(i + 32, 1149767586, 4127319575, 982119865, 814472144, 1796592009, 2611064153, 112688866, 2723753019, 2836441885, 1265227608);
    Row(i + 40, 2836441885, 1265227608, 4101669493, 1071929805, 878632002, 1950561807, 2829193809, 484788320, 3313982129, 3798770449);
  }

  /** The last term under the cap is that of place 22. */
  lemma SmallTerms() returns (last: nat)
    ensures last == 22 && G(last) == 46368 && Terms(last + 1) == Pair(75025, 121393)
  {
    last := 22;
    assert G(5) == 13 && G(6) == 21 && G(7) == 34 && G(8) == 55 && G(9) == 89 && G(10) == 144 && G(11) == 233;
    assert G(12) == 377 && G(13) == 610 && G(14) == 987 && G(15) == 1597 && G(16) == 2584 && G(17) == 4181;
    assert G(18) == 6765 && G(19) == 10946 && G(20) == 17711 && G(21) == 28657 && G(22) == 46368 && G(23) == 75025;
  }

  lemma AllLarge()
    ensures LargeFrom(23, 240)
  {
    var last := SmallTerms();
    Rows0(last + 1);
  }

  lemma LargePlace(i: nat)
    requires 23 <= i < 256
    ensures G(i) % WORD > CAP && G(i) > CAP
  {
    AllLarge();
    WrappedIsAtMost(G(i));
  }

  lemma SmallPlace(i: nat)
    requires i < 23
    ensures G(i) <= CAP
  {
    var last := SmallTerms();
    AtMostLast(i, last);
  }

  lemma AtMostLast(i: nat, last: nat)
    requires i <= last
    ensures G(i) <= G(last)
  {
    if i < last { GGrows(i, last); }
  }

  /** No wrapped term falls back under the cap: a register over the cap is a term over the cap, and one under is exact. */
  lemma RegisterIsFaithful(i: nat)
    requires i < 256
    ensures G(i) % WORD > CAP <==> G(i) > CAP
    ensures G(i) <= CAP ==> G(i) % WORD == G(i)
  {
    if i >= 23 { LargePlace(i); } else { SmallPlace(i); }
  }
}
