/** DSPBuilder's table-driven CRC-32 against the bit-at-a-time definition with the reflected
    polynomial 0xEDB88320 (section 8 of RFC 1952). */
module Crc32 {
  import opened Wrappers

  // ----- the definition, one bit at a time -----

  function Xor(a: bv32, b: bv32): bv32 {
    a ^ b
  }

  function BitStep(c: bv32): bv32 {
    if c & 1 == 1 then (c >> 1) ^ 0xEDB88320 else c >> 1
  }

  function EightSteps(c: bv32): bv32 {
    BitStep(BitStep(BitStep(BitStep(BitStep(BitStep(BitStep(BitStep(c))))))))
  }

  function Feed(c: bv32, b: bv8): bv32 {
    EightSteps(Xor(c, b as bv32))
  }

  function FeedAll(c: bv32, bs: seq<bv8>): bv32
    decreases |bs|
  {
    if bs == [] then c else FeedAll(Feed(c, bs[0]), bs[1..])
  }

  function AllOnes(): bv32 {
    0xFFFFFFFF
  }

  function Crc(bs: seq<bv8>): bv32 {
    Xor(FeedAll(AllOnes(), bs), AllOnes())
  }

  // ----- the table, eight entries a row -----

  function Row(r: bv32): (s: seq<bv32>)
    ensures |s| == 8
  {
    if r == 0 then
      [0x00000000, 0x77073096, 0xEE0E612C, 0x990951BA, 0x076DC419, 0x706AF48F, 0xE963A535, 0x9E6495A3]
    else if r == 1 then
      [0x0EDB8832, 0x79DCB8A4, 0xE0D5E91E, 0x97D2D988, 0x09B64C2B, 0x7EB17CBD, 0xE7B82D07, 0x90BF1D91]
    else if r == 2 then
      [0x1DB71064, 0x6AB020F2, 0xF3B97148, 0x84BE41DE, 0x1ADAD47D, 0x6DDDE4EB, 0xF4D4B551, 0x83D385C7]
    else if r == 3 then
      [0x136C9856, 0x646BA8C0, 0xFD62F97A, 0x8A65C9EC, 0x14015C4F, 0x63066CD9, 0xFA0F3D63, 0x8D080DF5]
    else if r == 4 then
      [0x3B6E20C8, 0x4C69105E, 0xD56041E4, 0xA2677172, 0x3C03E4D1, 0x4B04D447, 0xD20D85FD, 0xA50AB56B]
    else if r == 5 then
      [0x35B5A8FA, 0x42B2986C, 0xDBBBC9D6, 0xACBCF940, 0x32D86CE3, 0x45DF5C75, 0xDCD60DCF, 0xABD13D59]
    else if r == 6 then
      [0x26D930AC, 0x51DE003A, 0xC8D75180, 0xBFD06116, 0x21B4F4B5, 0x56B3C423, 0xCFBA9599, 0xB8BDA50F]
    else if r == 7 then
      [0x2802B89E, 0x5F058808, 0xC60CD9B2, 0xB10BE924, 0x2F6F7C87, 0x58684C11, 0xC1611DAB, 0xB6662D3D]
    else if r == 8 then
      [0x76DC4190, 0x01DB7106, 0x98D220BC, 0xEFD5102A, 0x71B18589, 0x06B6B51F, 0x9FBFE4A5, 0xE8B8D433]
    else if r == 9 then
      [0x7807C9A2, 0x0F00F934, 0x9609A88E, 0xE10E9818, 0x7F6A0DBB, 0x086D3D2D, 0x91646C97, 0xE6635C01]
    else if r == 10 then
      [0x6B6B51F4, 0x1C6C6162, 0x856530D8, 0xF262004E, 0x6C0695ED, 0x1B01A57B, 0x8208F4C1, 0xF50FC457]
    else if r == 11 then
      [0x65B0D9C6, 0x12B7E950, 0x8BBEB8EA, 0xFCB9887C, 0x62DD1DDF, 0x15DA2D49, 0x8CD37CF3, 0xFBD44C65]
    else if r == 12 then
      [0x4DB26158, 0x3AB551CE, 0xA3BC0074, 0xD4BB30E2, 0x4ADFA541, 0x3DD895D7, 0xA4D1C46D, 0xD3D6F4FB]
    else if r == 13 then
      [0x4369E96A, 0x346ED9FC, 0xAD678846, 0xDA60B8D0, 0x44042D73, 0x33031DE5, 0xAA0A4C5F, 0xDD0D7CC9]
    else if r == 14 then
      [0x5005713C, 0x270241AA, 0xBE0B1010, 0xC90C2086, 0x5768B525, 0x206F85B3, 0xB966D409, 0xCE61E49F]
    else if r == 15 then
      [0x5EDEF90E, 0x29D9C998, 0xB0D09822, 0xC7D7A8B4, 0x59B33D17, 0x2EB40D81, 0xB7BD5C3B, 0xC0BA6CAD]
    else if r == 16 then
      [0xEDB88320, 0x9ABFB3B6, 0x03B6E20C, 0x74B1D29A, 0xEAD54739, 0x9DD277AF, 0x04DB2615, 0x73DC1683]
    else if r == 17 then
      [0xE3630B12, 0x94643B84, 0x0D6D6A3E, 0x7A6A5AA8, 0xE40ECF0B, 0x9309FF9D, 0x0A00AE27, 0x7D079EB1]
    else if r == 18 then
      [0xF00F9344, 0x8708A3D2, 0x1E01F268, 0x6906C2FE, 0xF762575D, 0x806567CB, 0x196C3671, 0x6E6B06E7]
    else if r == 19 then
      [0xFED41B76, 0x89D32BE0, 0x10DA7A5A, 0x67DD4ACC, 0xF9B9DF6F, 0x8EBEEFF9, 0x17B7BE43, 0x60B08ED5]
    else if r == 20 then
      [0xD6D6A3E8, 0xA1D1937E, 0x38D8C2C4, 0x4FDFF252, 0xD1BB67F1, 0xA6BC5767, 0x3FB506DD, 0x48B2364B]
    else if r == 21 then
      [0xD80D2BDA, 0xAF0A1B4C, 0x36034AF6, 0x41047A60, 0xDF60EFC3, 0xA867DF55, 0x316E8EEF, 0x4669BE79]
    else if r == 22 then
      [0xCB61B38C, 0xBC66831A, 0x256FD2A0, 0x5268E236, 0xCC0C7795, 0xBB0B4703, 0x220216B9, 0x5505262F]
    else if r == 23 then
      [0xC5BA3BBE, 0xB2BD0B28, 0x2BB45A92, 0x5CB36A04, 0xC2D7FFA7, 0xB5D0CF31, 0x2CD99E8B, 0x5BDEAE1D]
    else if r == 24 then
      [0x9B64C2B0, 0xEC63F226, 0x756AA39C, 0x026D930A, 0x9C0906A9, 0xEB0E363F, 0x72076785, 0x05005713]
    else if r == 25 then
      [0x95BF4A82, 0xE2B87A14, 0x7BB12BAE, 0x0CB61B38, 0x92D28E9B, 0xE5D5BE0D, 0x7CDCEFB7, 0x0BDBDF21]
    else if r == 26 then
      [0x86D3D2D4, 0xF1D4E242, 0x68DDB3F8, 0x1FDA836E, 0x81BE16CD, 0xF6B9265B, 0x6FB077E1, 0x18B74777]
    else if r == 27 then
      [0x88085AE6, 0xFF0F6A70, 0x66063BCA, 0x11010B5C, 0x8F659EFF, 0xF862AE69, 0x616BFFD3, 0x166CCF45]
    else if r == 28 then
      [0xA00AE278, 0xD70DD2EE, 0x4E048354, 0x3903B3C2, 0xA7672661, 0xD06016F7, 0x4969474D, 0x3E6E77DB]
    else if r == 29 then
      [0xAED16A4A, 0xD9D65ADC, 0x40DF0B66, 0x37D83BF0, 0xA9BCAE53, 0xDEBB9EC5, 0x47B2CF7F, 0x30B5FFE9]
    else if r == 30 then
      [0xBDBDF21C, 0xCABAC28A, 0x53B39330, 0x24B4A3A6, 0xBAD03605, 0xCDD70693, 0x54DE5729, 0x23D967BF]
    else
      [0xB3667A2E, 0xC4614AB8, 0x5D681B02, 0x2A6F2B94, 0xB40BBE37, 0xC30C8EA1, 0x5A05DF1B, 0x2D02EF8D]
  }

  function Table(i: bv32): bv32
    requires i <= 0xFF
  {
    Row(i >> 3)[(i & 7) as int]
  }

  // ----- a bit step is linear and one-to-one -----

  function Mask(c: bv32): bv32 {
    if c & 1 == 1 then 0xEDB88320 else 0
  }

  function Half(c: bv32): bv32 {
    c >> 1
  }

  lemma StepIs(c: bv32)
    ensures BitStep(c) == Xor(Half(c), Mask(c))
  {
    if c & 1 == 1 {
      assert Mask(c) == 0xEDB88320;
    } else {
      assert Mask(c) == 0;
    }
  }

  lemma MaskXor(x: bv32, y: bv32)
    ensures Mask(Xor(x, y)) == Xor(Mask(x), Mask(y))
  {
  }

  lemma HalfXor(x: bv32, y: bv32)
    ensures Half(Xor(x, y)) == Xor(Half(x), Half(y))
  {
  }

  lemma XorAssociative(a: bv32, b: bv32, c: bv32)
    ensures Xor(Xor(a, b), c) == Xor(a, Xor(b, c))
  {
  }

  lemma XorCommutative(a: bv32, b: bv32)
    ensures Xor(a, b) == Xor(b, a)
  {
  }

  lemma XorExchange(a: bv32, b: bv32, p: bv32, q: bv32)
    ensures Xor(Xor(a, b), Xor(p, q)) == Xor(Xor(a, p), Xor(b, q))
  {
    hide *;
    XorAssociative(a, b, Xor(p, q));
    XorAssociative(b, p, q);
    XorCommutative(b, p);
    XorAssociative(p, b, q);
    XorAssociative(a, p, Xor(b, q));
  }

  lemma BitStepLinear(x: bv32, y: bv32)
    ensures BitStep(Xor(x, y)) == Xor(BitStep(x), BitStep(y))
  {
    hide *;
    StepIs(Xor(x, y));
    StepIs(x);
    StepIs(y);
    HalfXor(x, y);
    MaskXor(x, y);
    XorExchange(Half(x), Half(y), Mask(x), Mask(y));
  }

  lemma BitStepInjective(x: bv32, y: bv32)
    requires BitStep(x) == BitStep(y)
    ensures x == y
  {
  }

  lemma EightStepsLinear(x: bv32, y: bv32)
    ensures EightSteps(Xor(x, y)) == Xor(EightSteps(x), EightSteps(y))
  {
    hide BitStep, Xor;
    var x1, y1 := BitStep(x), BitStep(y);
    var x2, y2 := BitStep(x1), BitStep(y1);
    var x3, y3 := BitStep(x2), BitStep(y2);
    var x4, y4 := BitStep(x3), BitStep(y3);
    var x5, y5 := BitStep(x4), BitStep(y4);
    var x6, y6 := BitStep(x5), BitStep(y5);
    var x7, y7 := BitStep(x6), BitStep(y6);
    BitStepLinear(x, y); BitStepLinear(x1, y1); BitStepLinear(x2, y2); BitStepLinear(x3, y3);
    BitStepLinear(x4, y4); BitStepLinear(x5, y5); BitStepLinear(x6, y6); BitStepLinear(x7, y7);
  }

  lemma EightStepsInjective(x: bv32, y: bv32)
    requires EightSteps(x) == EightSteps(y)
    ensures x == y
  {
    hide BitStep;
    var x1, y1 := BitStep(x), BitStep(y);
    var x2, y2 := BitStep(x1), BitStep(y1);
    var x3, y3 := BitStep(x2), BitStep(y2);
    var x4, y4 := BitStep(x3), BitStep(y3);
    var x5, y5 := BitStep(x4), BitStep(y4);
    var x6, y6 := BitStep(x5), BitStep(y5);
    var x7, y7 := BitStep(x6), BitStep(y6);
    BitStepInjective(x7, y7); BitStepInjective(x6, y6); BitStepInjective(x5, y5); BitStepInjective(x4, y4);
    BitStepInjective(x3, y3); BitStepInjective(x2, y2); BitStepInjective(x1, y1); BitStepInjective(x, y);
  }

  // ----- the table is right: the first row and the first column by evaluation, the rest by linearity -----

  ghost predicate RowMatches(row: seq<bv32>, base: bv32)
    requires |row| == 8
  {
    && row[0] == EightSteps(base)
    && row[1] == row[0] ^ 0x77073096 && row[2] == row[0] ^ 0xEE0E612C && row[3] == row[0] ^ 0x990951BA
    && row[4] == row[0] ^ 0x076DC419 && row[5] == row[0] ^ 0x706AF48F && row[6] == row[0] ^ 0xE963A535
    && row[7] == row[0] ^ 0x9E6495A3
  }

  lemma Row0() ensures RowMatches(Row(0), 0) { }
  lemma Row1() ensures RowMatches(Row(1), 8) { }
  lemma Row2() ensures RowMatches(Row(2), 16) { }
  lemma Row3() ensures RowMatches(Row(3), 24) { }
  lemma Row4() ensures RowMatches(Row(4), 32) { }
  lemma Row5() ensures RowMatches(Row(5), 40) { }
  lemma Row6() ensures RowMatches(Row(6), 48) { }
  lemma Row7() ensures RowMatches(Row(7), 56) { }
  lemma Row8() ensures RowMatches(Row(8), 64) { }
  lemma Row9() ensures RowMatches(Row(9), 72) { }
  lemma Row10() ensures RowMatches(Row(10), 80) { }
  lemma Row11() ensures RowMatches(Row(11), 88) { }
  lemma Row12() ensures RowMatches(Row(12), 96) { }
  lemma Row13() ensures RowMatches(Row(13), 104) { }
  lemma Row14() ensures RowMatches(Row(14), 112) { }
  lemma Row15() ensures RowMatches(Row(15), 120) { }
  lemma Row16() ensures RowMatches(Row(16), 128) { }
  lemma Row17() ensures RowMatches(Row(17), 136) { }
  lemma Row18() ensures RowMatches(Row(18), 144) { }
  lemma Row19() ensures RowMatches(Row(19), 152) { }
  lemma Row20() ensures RowMatches(Row(20), 160) { }
  lemma Row21() ensures RowMatches(Row(21), 168) { }
  lemma Row22() ensures RowMatches(Row(22), 176) { }
  lemma Row23() ensures RowMatches(Row(23), 184) { }
  lemma Row24() ensures RowMatches(Row(24), 192) { }
  lemma Row25() ensures RowMatches(Row(25), 200) { }
  lemma Row26() ensures RowMatches(Row(26), 208) { }
  lemma Row27() ensures RowMatches(Row(27), 216) { }
  lemma Row28() ensures RowMatches(Row(28), 224) { }
  lemma Row29() ensures RowMatches(Row(29), 232) { }
  lemma Row30() ensures RowMatches(Row(30), 240) { }
  lemma Row31() ensures RowMatches(Row(31), 248) { }

  lemma RowIsRight(r: bv32)
    requires r < 32
    ensures RowMatches(Row(r), r << 3)
  {
    hide *;
    Row0(); Row1(); Row2(); Row3(); Row4(); Row5(); Row6(); Row7();
    Row8(); Row9(); Row10(); Row11(); Row12(); Row13(); Row14(); Row15();
    Row16(); Row17(); Row18(); Row19(); Row20(); Row21(); Row22(); Row23();
    Row24(); Row25(); Row26(); Row27(); Row28(); Row29(); Row30(); Row31();
    assert 0 <= r <= 3 ==> r == 0 || r == 1 || r == 2 || r == 3;
    assert 4 <= r <= 7 ==> r == 4 || r == 5 || r == 6 || r == 7;
    assert 8 <= r <= 11 ==> r == 8 || r == 9 || r == 10 || r == 11;
    assert 12 <= r <= 15 ==> r == 12 || r == 13 || r == 14 || r == 15;
    assert 16 <= r <= 19 ==> r == 16 || r == 17 || r == 18 || r == 19;
    assert 20 <= r <= 23 ==> r == 20 || r == 21 || r == 22 || r == 23;
    assert 24 <= r <= 27 ==> r == 24 || r == 25 || r == 26 || r == 27;
    assert 28 <= r <= 31 ==> r == 28 || r == 29 || r == 30 || r == 31;
  }

  lemma FirstRow(k: bv32)
    requires k < 8
    ensures Row(0)[k as int] == EightSteps(k)
  {
    assert k == 0 || k == 1 || k == 2 || k == 3 || k == 4 || k == 5 || k == 6 || k == 7;
  }

  lemma InRow(r: bv32, k: bv32)
    requires r < 32 && k < 8
    ensures Row(r)[k as int] == Xor(EightSteps(r << 3), Row(0)[k as int])
  {
    RowIsRight(r);
    assert k == 0 || k == 1 || k == 2 || k == 3 || k == 4 || k == 5 || k == 6 || k == 7;
    assert Row(0) == [0x00000000, 0x77073096, 0xEE0E612C, 0x990951BA, 0x076DC419, 0x706AF48F, 0xE963A535, 0x9E6495A3];
    hide EightSteps, Row;
  }

  lemma SplitIndex(i: bv32)
    requires i <= 0xFF
    ensures i >> 3 < 32 && i & 7 < 8 && i == Xor((i >> 3) << 3, i & 7)
  {
  }

  lemma TableIsEightSteps(i: bv32)
    requires i <= 0xFF
    ensures Table(i) == EightSteps(i)
  {
    hide Xor, EightSteps, Row;
    SplitIndex(i);
    InRow(i >> 3, i & 7);
    FirstRow(i & 7);
    EightStepsLinear((i >> 3) << 3, i & 7);
  }

  // ----- so a byte can be fed through the table -----

  function Low(x: bv32): (r: bv32)
    ensures r <= 0xFF
  {
    x & 0xFF
  }

  function High(x: bv32): bv32 {
    x & 0xFFFFFF00
  }

  function Rest(x: bv32): bv32 {
    x >> 8
  }

  lemma SplitWord(x: bv32)
    ensures x == Xor(Low(x), High(x)) && High(x) & 0xFF == 0 && Rest(High(x)) == Rest(x)
  {
  }

  lemma HighBitsShift(h: bv32)
    requires h & 0xFF == 0
    ensures EightSteps(h) == Rest(h)
  {
  }

  lemma ByteIsLow(c: bv32, b: bv8)
    ensures Rest(Xor(c, b as bv32)) == Rest(c)
  {
  }

  lemma WordStep(x: bv32)
    ensures Xor(Table(Low(x)), Rest(x)) == EightSteps(x)
  {
    hide *;
    SplitWord(x);
    TableIsEightSteps(Low(x));
    HighBitsShift(High(x));
    EightStepsLinear(Low(x), High(x));
  }

  /** One step of the source's inner loop. */
  function TableFeed(c: bv32, b: bv8): bv32 {
    Xor(Table(Low(Xor(c, b as bv32))), Rest(c))
  }

  lemma TableFeedIsFeed(c: bv32, b: bv8)
    ensures TableFeed(c, b) == Feed(c, b)
  {
    hide Table, EightSteps, Xor, Low, Rest;
    WordStep(Xor(c, b as bv32));
    ByteIsLow(c, b);
  }

  // ----- the check value -----

  lemma FeedDigits()
    ensures Feed(0xFFFFFFFF, 0x31) == 0x7C231048
    ensures Feed(0x7C231048, 0x32) == 0xB0ACBB32
    ensures Feed(0xB0ACBB32, 0x33) == 0x77B79C2D
    ensures Feed(0x77B79C2D, 0x34) == 0x641C1F5C
    ensures Feed(0x641C1F5C, 0x35) == 0x340AC5E3
    ensures Feed(0x340AC5E3, 0x36) == 0xF68D2C9E
    ensures Feed(0xF68D2C9E, 0x37) == 0xAFFC9660
    ensures Feed(0xAFFC9660, 0x38) == 0x651F2550
    ensures Feed(0x651F2550, 0x39) == 0x340BC6D9
  {
    hide Feed;
    TableFeedIsFeed(0xFFFFFFFF, 0x31);
    TableFeedIsFeed(0x7C231048, 0x32);
    TableFeedIsFeed(0xB0ACBB32, 0x33);
    TableFeedIsFeed(0x77B79C2D, 0x34);
    TableFeedIsFeed(0x641C1F5C, 0x35);
    TableFeedIsFeed(0x340AC5E3, 0x36);
    TableFeedIsFeed(0xF68D2C9E, 0x37);
    TableFeedIsFeed(0xAFFC9660, 0x38);
    TableFeedIsFeed(0x651F2550, 0x39);
  }

  lemma Fed(c: bv32, bs: seq<bv8>)
    ensures bs == [] ==> FeedAll(c, bs) == c
    ensures bs != [] ==> FeedAll(c, bs) == FeedAll(Feed(c, bs[0]), bs[1..])
  {
    hide Feed;
  }

  /** The digits 1 to 9. */
  const CHECK: seq<bv8> := [0x31, 0x32, 0x33, 0x34, 0x35, 0x36, 0x37, 0x38, 0x39]

  lemma CheckRest(i: nat)
    requires i < 9
    ensures CHECK[i..][0] == CHECK[i] && CHECK[i..][1..] == CHECK[i + 1..]
  {
  }

  /** The catalogued check value of this checksum; the checksum of nothing is zero. */
  lemma CheckValue()
    ensures Crc(CHECK) == 0xCBF43926 && Crc([]) == 0
  {
    hide Feed, FeedAll;
    FeedDigits();
    assert CHECK[0..] == CHECK && CHECK[9..] == [];
    CheckRest(0); CheckRest(1); CheckRest(2); CheckRest(3); CheckRest(4);
    CheckRest(5); CheckRest(6); CheckRest(7); CheckRest(8);
    Fed(0xFFFFFFFF, CHECK[0..]);
    Fed(0x7C231048, CHECK[1..]);
    Fed(0xB0ACBB32, CHECK[2..]);
    Fed(0x77B79C2D, CHECK[3..]);
    Fed(0x641C1F5C, CHECK[4..]);
    Fed(0x340AC5E3, CHECK[5..]);
    Fed(0xF68D2C9E, CHECK[6..]);
    Fed(0xAFFC9660, CHECK[7..]);
    Fed(0x651F2550, CHECK[8..]);
    Fed(0x340BC6D9, []);
    Fed(0xFFFFFFFF, []);
  }

  // ----- reading in chunks -----

  /** What a sequence of reads delivers: the loop ends at the first read of nothing. */
  function Delivered(chunks: seq<seq<bv8>>): seq<bv8> {
    if chunks == [] || chunks[0] == [] then [] else chunks[0] + Delivered(chunks[1..])
  }

  lemma {:induction false} FeedAllConcat(c: bv32, xs: seq<bv8>, ys: seq<bv8>)
    ensures FeedAll(c, xs + ys) == FeedAll(FeedAll(c, xs), ys)
    decreases |xs|
  {
    if xs == [] {
      assert xs + ys == ys;
    } else {
      hide Feed;
      assert (xs + ys)[1..] == xs[1..] + ys;
      FeedAllConcat(Feed(c, xs[0]), xs[1..], ys);
    }
  }

  method FeedChunk(start: bv32, buf: seq<bv8>) returns (crc: bv32)
    ensures crc == FeedAll(start, buf)
  {
    hide Feed, TableFeed;
    crc := start;
    for i := 0 to |buf|
      invariant FeedAll(start, buf) == FeedAll(crc, buf[i..])
    {
      TableFeedIsFeed(crc, buf[i]);
      assert buf[i..][1..] == buf[i + 1..];
      crc := TableFeed(crc, buf[i]);
    }
  }

  /** A missing file gives 0; otherwise the CRC of what was read, however it was split into chunks. */
  method ComputeFileCrc32(file: Option<seq<seq<bv8>>>) returns (crc: bv32)
    ensures file.None? ==> crc == 0
    ensures file.Some? ==> crc == Crc(Delivered(file.value))
  {
    if file.None? {
      return 0;
    }
    crc := FeedChunks(file.value);
    crc := Complement(crc);
  }

  method FeedChunks(chunks: seq<seq<bv8>>) returns (crc: bv32)
    ensures crc == FeedAll(AllOnes(), Delivered(chunks))
  {
    var k := 0;
    crc := AllOnes();
    assert chunks[0..] == chunks;
    while k < |chunks| && chunks[k] != []
      invariant 0 <= k <= |chunks|
      invariant FeedAll(AllOnes(), Delivered(chunks)) == FeedAll(crc, Delivered(chunks[k..]))
    {
      hide FeedAll, AllOnes;
      assert chunks[k..][1..] == chunks[k + 1..];
      FeedAllConcat(crc, chunks[k], Delivered(chunks[k + 1..]));
      crc := FeedChunk(crc, chunks[k]);
      k := k + 1;
    }
    assert Delivered(chunks[k..]) == [];
    hide AllOnes, Feed;
  }

  function Complement(c: bv32): (r: bv32)
    ensures r == Xor(c, AllOnes())
  {
    !c
  }

  // ----- what the checksum detects -----

  lemma FeedInjective(c: bv32, d: bv32, b: bv8)
    requires Feed(c, b) == Feed(d, b)
    ensures c == d
  {
    hide EightSteps;
    EightStepsInjective(Xor(c, b as bv32), Xor(d, b as bv32));
  }

  lemma {:induction false} FeedAllInjective(c: bv32, d: bv32, bs: seq<bv8>)
    requires FeedAll(c, bs) == FeedAll(d, bs)
    ensures c == d
    decreases |bs|
  {
    hide Feed;
    if bs != [] {
      FeedAllInjective(Feed(c, bs[0]), Feed(d, bs[0]), bs[1..]);
      FeedInjective(c, d, bs[0]);
    }
  }

  /** Four bytes as the little-endian word they form. */
  function Word(s: seq<bv8>): bv32
    requires |s| == 4
  {
    Xor(Xor(Xor(s[0] as bv32, Up(s[1] as bv32)), Up(Up(s[2] as bv32))), Up(Up(Up(s[3] as bv32))))
  }

  function Up(x: bv32): bv32 {
    x << 8
  }

  lemma UpIsUndone(x: bv32)
    requires x <= 0xFFFFFF
    ensures EightSteps(Up(x)) == x
  {
    hide EightSteps;
    HighBitsShift(Up(x));
  }

  /** A byte fed after eight steps could have been mixed in, moved up, before them. */
  lemma FeedEarlier(x: bv32, y: bv32)
    requires y <= 0xFFFFFF
    ensures Xor(EightSteps(x), y) == EightSteps(Xor(x, Up(y)))
  {
    hide *;
    EightStepsLinear(x, Up(y));
    UpIsUndone(y);
  }

  lemma ByteBounds(b: bv8)
    ensures b as bv32 <= 0xFFFFFF && Up(b as bv32) <= 0xFFFFFF && Up(Up(b as bv32)) <= 0xFFFFFF
  {
  }

  lemma FeedPair(x: bv32, b: bv8)
    ensures Feed(EightSteps(x), b) == EightSteps(EightSteps(Xor(x, Up(b as bv32))))
  {
    hide EightSteps, Xor, Up;
    ByteBounds(b);
    FeedEarlier(x, b as bv32);
  }

  lemma FeedThird(x: bv32, b: bv8)
    ensures Feed(EightSteps(EightSteps(x)), b) ==
            EightSteps(EightSteps(EightSteps(Xor(x, Up(Up(b as bv32))))))
  {
    hide EightSteps, Xor, Up;
    ByteBounds(b);
    FeedEarlier(EightSteps(x), b as bv32);
    FeedEarlier(x, Up(b as bv32));
  }

  lemma FeedFourth(x: bv32, b: bv8)
    ensures Feed(EightSteps(EightSteps(EightSteps(x))), b) ==
            EightSteps(EightSteps(EightSteps(EightSteps(Xor(x, Up(Up(Up(b as bv32))))))))
  {
    hide EightSteps, Xor, Up;
    ByteBounds(b);
    FeedEarlier(EightSteps(EightSteps(x)), b as bv32);
    FeedEarlier(EightSteps(x), Up(b as bv32));
    FeedEarlier(x, Up(Up(b as bv32)));
  }

  lemma XorWord(c: bv32, s: seq<bv8>)
    requires |s| == 4
    ensures Xor(Xor(Xor(Xor(c, s[0] as bv32), Up(s[1] as bv32)), Up(Up(s[2] as bv32))), Up(Up(Up(s[3] as bv32))))
         == Xor(c, Word(s))
  {
    hide Up, Xor;
    var b0, b1, b2 := s[0] as bv32, Up(s[1] as bv32), Up(Up(s[2] as bv32));
    XorAssociative(c, b0, b1);
    XorAssociative(c, Xor(b0, b1), b2);
    XorAssociative(c, Xor(Xor(b0, b1), b2), Up(Up(Up(s[3] as bv32))));
  }

  /** Four bytes are thirty-two bit steps on the register mixed with their word. */
  lemma FeedWord(c: bv32, s: seq<bv8>)
    requires |s| == 4
    ensures FeedAll(c, s) == EightSteps(EightSteps(EightSteps(EightSteps(Xor(c, Word(s))))))
  {
    hide EightSteps, Xor, Up, Word;
    var x0 := Xor(c, s[0] as bv32);
    var x1 := Xor(x0, Up(s[1] as bv32));
    var x2 := Xor(x1, Up(Up(s[2] as bv32)));
    FeedPair(x0, s[1]);
    FeedThird(x1, s[2]);
    FeedFourth(x2, s[3]);
    XorWord(c, s);
    var c1 := Feed(c, s[0]);
    var c2 := Feed(c1, s[1]);
    var c3 := Feed(c2, s[2]);
    assert FeedAll(c, s) == FeedAll(c1, s[1..]);
    assert FeedAll(c1, s[1..]) == FeedAll(c2, s[2..]) by { assert s[1..][1..] == s[2..]; }
    assert FeedAll(c2, s[2..]) == FeedAll(c3, s[3..]) by { assert s[2..][1..] == s[3..]; }
    assert FeedAll(c3, s[3..]) == Feed(c3, s[3]) by { assert s[3..][1..] == []; }
  }

  lemma WordBytes(s: seq<bv8>)
    requires |s| == 4
    ensures Low(Word(s)) == s[0] as bv32
    ensures Low(Rest(Word(s))) == s[1] as bv32
    ensures Low(Rest(Rest(Word(s)))) == s[2] as bv32
    ensures Low(Rest(Rest(Rest(Word(s))))) == s[3] as bv32
  {
  }

  lemma WordInjective(s: seq<bv8>, t: seq<bv8>)
    requires |s| == |t| == 4 && Word(s) == Word(t)
    ensures s == t
  {
    hide *;
    WordBytes(s);
    WordBytes(t);
    SameByte(s[0], t[0]);
    SameByte(s[1], t[1]);
    SameByte(s[2], t[2]);
    SameByte(s[3], t[3]);
  }

  lemma SameByte(a: bv8, b: bv8)
    ensures a as bv32 == b as bv32 ==> a == b
  {
  }

  lemma XorInjective(c: bv32, x: bv32, y: bv32)
    requires Xor(c, x) == Xor(c, y)
    ensures x == y
  {
  }

  /** From one register, two windows of at most four bytes lead to the same register only if equal. */
  lemma {:induction false} WindowInjective(c: bv32, s: seq<bv8>, t: seq<bv8>)
    requires |s| == |t| <= 4 && FeedAll(c, s) == FeedAll(c, t)
    ensures s == t
    decreases 4 - |s|
  {
    if |s| == 4 {
      hide *;
      FeedWord(c, s);
      FeedWord(c, t);
      var x, y := Xor(c, Word(s)), Xor(c, Word(t));
      var x1, y1 := EightSteps(x), EightSteps(y);
      var x2, y2 := EightSteps(x1), EightSteps(y1);
      EightStepsInjective(EightSteps(x2), EightSteps(y2));
      EightStepsInjective(x2, y2);
      EightStepsInjective(x1, y1);
      EightStepsInjective(x, y);
      XorInjective(c, Word(s), Word(t));
      WordInjective(s, t);
    } else {
      hide *;
      FeedAllConcat(c, s, [0]);
      FeedAllConcat(c, t, [0]);
      WindowInjective(c, s + [0], t + [0]);
      assert s == (s + [0])[..|s|] && t == (t + [0])[..|t|];
    }
  }

  /** A change confined to four consecutive bytes always changes the checksum. */
  lemma ShortBurstDetected(before: seq<bv8>, s: seq<bv8>, t: seq<bv8>, after: seq<bv8>)
    requires |s| == |t| <= 4 && s != t
    ensures Crc(before + s + after) != Crc(before + t + after)
  {
    var c := FeedAll(AllOnes(), before);
    if Crc(before + s + after) == Crc(before + t + after) {
      hide FeedAll, AllOnes;
      FeedAllConcat(AllOnes(), before + s, after);
      FeedAllConcat(AllOnes(), before, s);
      FeedAllConcat(AllOnes(), before + t, after);
      FeedAllConcat(AllOnes(), before, t);
      FeedAllInjective(FeedAll(c, s), FeedAll(c, t), after);
      WindowInjective(c, s, t);
    }
  }
}
