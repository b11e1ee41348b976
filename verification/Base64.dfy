/** The home-made base 64 codec: bits least significant first, its own alphabet, no padding. */
module Base64 {
  import opened Wrappers

  /** A byte or a character. */
  type Octet = bv8

  datatype CodecError = InvalidCharacter

  const NB_BITS: nat := 6

  // ----- the two tables

  /** The alphabet: '.', '=', the digits, the capital letters, the small ones. */
  predicate IsSymbol(c: Octet) {
    c == 46 || c == 61 || 48 <= c <= 57 || 65 <= c <= 90 || 97 <= c <= 122
  }

  const NOT_OK_VAL: bv8 := 128

  const MAX_VAL_TAB2: bv8 := 123

  /** The symbol of each value. */
  function Tab(v: bv8): Octet
    requires v < 64
  {
    if v == 0 then 46 else if v == 1 then 61 else if v < 12 then v + 46 else if v < 38 then v + 53 else v + 59
  }

  /** The value of each character below MAX_VAL_TAB2. */
  function Tab2(c: Octet): bv8
    requires c < MAX_VAL_TAB2
  {
    if c == 46 then 0 else if c == 61 then 1 else if 48 <= c <= 57 then c - 46 else if 65 <= c <= 90 then c - 53
    else if 97 <= c <= 122 then c - 59 else NOT_OK_VAL
  }

  /** Each table undoes the other on the 64 symbols, and every other character is marked. */
  lemma {:induction false} TablesAreInverse(v: bv8, c: Octet)
    requires v < 64
    ensures IsSymbol(Tab(v)) && Tab(v) < MAX_VAL_TAB2 && Tab2(Tab(v)) == v
    ensures IsSymbol(c) <==> c < MAX_VAL_TAB2 && Tab2(c) != NOT_OK_VAL
    ensures IsSymbol(c) ==> Tab2(c) < 64 && Tab(Tab2(c)) == c
  {
  }

  const DIGITS: string := "0123456789"

  const CAPITALS: string := "ABCDEFGHIJKLMNOPQRSTUVWXYZ"

  const SMALL: string := "abcdefghijklmnopqrstuvwxyz"

  /** The symbols in the order of their values. */
  const ALPHABET: string := ".=" + DIGITS + CAPITALS + SMALL

  /** Character c is the symbol of v. */
  ghost predicate IsLetter(c: Octet, v: bv8) {
    v as int < |ALPHABET| && c as int == ALPHABET[v as int] as int
  }

  lemma {:induction false} DigitAt(k: nat)
    requires k < 10
    ensures |DIGITS| == 10 && DIGITS[k] as int == 48 + k
  {
    assert k == 0 || k == 1 || k == 2 || k == 3 || k == 4 || k == 5 || k == 6 || k == 7 || k == 8 || k == 9;
  }

  lemma {:induction false} CapitalAt(k: nat)
    requires k < 26
    ensures |CAPITALS| == 26 && CAPITALS[k] as int == 65 + k
  {
    assert k == 0 || k == 1 || k == 2 || k == 3 || k == 4 || k == 5 || k == 6 || k == 7 || k == 8 || k == 9 ||
      k == 10 || k == 11 || k == 12 || k == 13 || k == 14 || k == 15 || k == 16 || k == 17 || k == 18 ||
      k == 19 || k == 20 || k == 21 || k == 22 || k == 23 || k == 24 || k == 25;
  }

  lemma {:induction false} SmallAt(k: nat)
    requires k < 26
    ensures |SMALL| == 26 && SMALL[k] as int == 97 + k
  {
    assert k == 0 || k == 1 || k == 2 || k == 3 || k == 4 || k == 5 || k == 6 || k == 7 || k == 8 || k == 9 ||
      k == 10 || k == 11 || k == 12 || k == 13 || k == 14 || k == 15 || k == 16 || k == 17 || k == 18 ||
      k == 19 || k == 20 || k == 21 || k == 22 || k == 23 || k == 24 || k == 25;
  }

  lemma {:induction false} LetterAt(k: nat)
    requires k < 64
    ensures |ALPHABET| == 64
    ensures ALPHABET[k] as int ==
      if k == 0 then 46 else if k == 1 then 61 else if k < 12 then k + 46 else if k < 38 then k + 53 else k + 59
  {
    DigitAt(if 2 <= k < 12 then k - 2 else 0);
    CapitalAt(if 12 <= k < 38 then k - 12 else 0);
    SmallAt(if 38 <= k then k - 38 else 0);
  }

  lemma {:induction false} AddsUp(v: bv8, d: bv8)
    requires v < 64 && d < 64
    ensures (v + d) as int == v as int + d as int && v as int < 64
  {
  }

  lemma {:induction false} SameOrder(v: bv8, d: bv8)
    ensures (v < d <==> v as int < d as int) && (v == d <==> v as int == d as int)
  {
  }

  /** The symbol of each value is its letter of the alphabet. */
  lemma {:induction false} SymbolIsLetter(v: bv8)
    requires v < 64
    ensures IsLetter(Tab(v), v)
  {
    AddsUp(v, 46);
    AddsUp(v, 53);
    AddsUp(v, 59);
    SameOrder(v, 0);
    SameOrder(v, 1);
    SameOrder(v, 12);
    SameOrder(v, 38);
    LetterAt(v as int);
  }

  /** A letter has one value, which is looked up. */
  lemma {:induction false} LetterHasValue(c: Octet, v: bv8)
    requires IsLetter(c, v)
    ensures v < 64 && IsSymbol(c) && c < MAX_VAL_TAB2 && Tab2(c) == v
  {
    LetterAt(0);
    SameOrder(v, 64);
    SymbolIsLetter(v);
    SameOrder(c, Tab(v));
    TablesAreInverse(v, c);
  }

  method CheckEntry(c: Octet) returns (r: Result<bv8, CodecError>)
    ensures r == Value(c)
    ensures r.Success? <==> IsSymbol(c)
    ensures r.Success? ==> r.value < 64
  {
    TablesAreInverse(0, c);
    if c < MAX_VAL_TAB2 {
      var ret := Tab2(c);
      if ret != NOT_OK_VAL { return Success(ret); }
      return Failure(InvalidCharacter);
    }
    return Failure(InvalidCharacter);
  }

  function Value(c: Octet): Result<bv8, CodecError> {
    TablesAreInverse(0, c);
    if c < MAX_VAL_TAB2 && Tab2(c) != NOT_OK_VAL then Success(Tab2(c)) else Failure(InvalidCharacter)
  }

  // ----- bits

  /** Shifts right by n places, one place at a time. */
  function ShiftRight(val: bv8, n: nat): bv8 {
    if n == 0 then val else ShiftRight(val, n - 1) >> 1
  }

  lemma {:induction false} ShiftsAreOne(val: bv8)
    ensures ShiftRight(val, 0) == val >> 0 && ShiftRight(val, 1) == val >> 1
    ensures ShiftRight(val, 2) == val >> 2 && ShiftRight(val, 3) == val >> 3
    ensures ShiftRight(val, 4) == val >> 4 && ShiftRight(val, 5) == val >> 5
    ensures ShiftRight(val, 6) == val >> 6 && ShiftRight(val, 7) == val >> 7
  {
    assert ShiftRight(val, 2) == ShiftRight(val, 1) >> 1;
    assert ShiftRight(val, 3) == ShiftRight(val, 2) >> 1;
    assert ShiftRight(val, 4) == ShiftRight(val, 3) >> 1;
    assert ShiftRight(val, 5) == ShiftRight(val, 4) >> 1;
    assert ShiftRight(val, 6) == ShiftRight(val, 5) >> 1;
    assert ShiftRight(val, 7) == ShiftRight(val, 6) >> 1;
  }

  function BitAtPosSimple(val: bv8, bitPos: nat): (b: bv8)
    requires bitPos < 8
    ensures b <= 1
  {
    ShiftRight(val, bitPos) & 1
  }

  function BitAtPos(pt0: bv8, pt1: bv8, bitPos: nat): (b: bv8)
    requires bitPos < 16
    ensures b <= 1
  {
    if bitPos < 8 then BitAtPosSimple(pt0, bitPos) else BitAtPosSimple(pt1, bitPos - 8)
  }

  /** The bits of a chunk are read from the most significant one. */
  function BitAtPosSimple2(val: bv8, bitPos: nat): (b: bv8)
    requires bitPos < 6
    ensures b <= 1
  {
    ShiftRight(val, 5 - bitPos) & 1
  }

  function BitAtPosOnChunk(pt0: bv8, pt1: bv8, bitPos: nat): (b: bv8)
    requires bitPos < 12
    ensures b <= 1
  {
    if bitPos < 6 then BitAtPosSimple2(pt0, bitPos) else BitAtPosSimple2(pt1, bitPos - 6)
  }

  type Bits = s: seq<bv8> | forall i {:trigger s[i]} :: 0 <= i < |s| ==> s[i] <= 1

  /** The register after n bits were pushed in, each followed by a shift. */
  function Pushed(bits: Bits, n: nat): bv8
    requires n <= |bits|
  {
    if n == 0 then 0 else (Pushed(bits, n - 1) | bits[n - 1]) << 1
  }

  /** The six bits of a chunk, taken from two bytes. */
  function BitsOfChunk(pt0: bv8, pt1: bv8, start: nat): (bits: Bits)
    requires start < 8
    ensures |bits| == 6 && forall i {:trigger bits[i]} :: 0 <= i < 6 ==> bits[i] == BitAtPos(pt0, pt1, start + i)
  {
    var bits := seq(6, i requires 0 <= i < 6 => BitAtPos(pt0, pt1, start + i));
    assert forall i {:trigger bits[i]} :: 0 <= i < 6 ==> bits[i] == BitAtPos(pt0, pt1, start + i);
    bits
  }

  method ChunkInternal(pt0: bv8, pt1: bv8, startBitIdInByte: nat) returns (ret: bv8)
    requires startBitIdInByte < 8
    ensures ret == Pushed(BitsOfChunk(pt0, pt1, startBitIdInByte), 6) >> 1
  {
    ret := 0;
    for i := 0 to NB_BITS
      invariant ret == Pushed(BitsOfChunk(pt0, pt1, startBitIdInByte), i)
    {
      ret := ret | BitAtPos(pt0, pt1, startBitIdInByte + i);
      ret := ret << 1;
    }
    ret := ret >> 1;
  }

  function SixBits(b0: bv8, b1: bv8, b2: bv8, b3: bv8, b4: bv8, b5: bv8): bv8 {
    (((((((((((0 | b0) << 1) | b1) << 1) | b2) << 1) | b3) << 1) | b4) << 1) | b5) << 1
  }

  lemma {:induction false} SixBitsKept(b0: bv8, b1: bv8, b2: bv8, b3: bv8, b4: bv8, b5: bv8)
    requires b0 <= 1 && b1 <= 1 && b2 <= 1 && b3 <= 1 && b4 <= 1 && b5 <= 1
    ensures var c := SixBits(b0, b1, b2, b3, b4, b5) >> 1;
            && c < 64
            && (c >> 5) & 1 == b0 && (c >> 4) & 1 == b1 && (c >> 3) & 1 == b2
            && (c >> 2) & 1 == b3 && (c >> 1) & 1 == b4 && (c >> 0) & 1 == b5
  {
  }

  lemma {:induction false} NextPushed(bits: Bits, n: nat)
    requires n < |bits|
    ensures Pushed(bits, n + 1) == (Pushed(bits, n) | bits[n]) << 1
  {
  }

  /** A chunk keeps the six bits that were pushed, in their order. */
  lemma {:induction false} ChunkHasBits(bits: Bits, pos: nat)
    requires |bits| == 6 && pos < 6
    ensures Pushed(bits, 6) >> 1 < 64
    ensures BitAtPosSimple2(Pushed(bits, 6) >> 1, pos) == bits[pos]
  {
    NextPushed(bits, 0);
    NextPushed(bits, 1);
    NextPushed(bits, 2);
    NextPushed(bits, 3);
    NextPushed(bits, 4);
    NextPushed(bits, 5);
    ShiftsAreOne(Pushed(bits, 6) >> 1);
    SixBitsKept(bits[0], bits[1], bits[2], bits[3], bits[4], bits[5]);
    ChunkBitAt(Pushed(bits, 6) >> 1, bits, pos);
  }

  lemma {:induction false} ChunkBitAt(c: bv8, bits: Bits, pos: nat)
    requires |bits| == 6 && pos < 6
    requires (c >> 5) & 1 == bits[0] && (c >> 4) & 1 == bits[1] && (c >> 3) & 1 == bits[2]
    requires (c >> 2) & 1 == bits[3] && (c >> 1) & 1 == bits[4] && (c >> 0) & 1 == bits[5]
    ensures BitAtPosSimple2(c, pos) == bits[pos]
  {
    ShiftsAreOne(c);
    if pos == 0 {
      assert BitAtPosSimple2(c, 0) == bits[0];
    } else if pos == 1 {
      assert BitAtPosSimple2(c, 1) == bits[1];
    } else if pos == 2 {
      assert BitAtPosSimple2(c, 2) == bits[2];
    } else if pos == 3 {
      assert BitAtPosSimple2(c, 3) == bits[3];
    } else if pos == 4 {
      assert BitAtPosSimple2(c, 4) == bits[4];
    } else {
      assert BitAtPosSimple2(c, 5) == bits[5];
    }
  }

  /** The register after the n highest bits were put in, with a shift between two of them. */
  function Loaded(bits: Bits, n: nat): bv8
    requires |bits| == 8 && 1 <= n <= 8
  {
    if n == 1 then 0 | bits[7] else (Loaded(bits, n - 1) << 1) | bits[8 - n]
  }

  /** The register after all bits were put in. */
  function ByteOf(bits: Bits): bv8
    requires |bits| == 8
  {
    Loaded(bits, |bits|)
  }

  /** The eight bits of a byte, taken from two chunks. */
  function BitsOfByte(ct0: bv8, ct1: bv8, start: nat): (bits: Bits)
    requires start <= 4
    ensures |bits| == 8 && forall i {:trigger bits[i]} :: 0 <= i < 8 ==> bits[i] == BitAtPosOnChunk(ct0, ct1, start + i)
  {
    var bits := seq(8, i requires 0 <= i < 8 => BitAtPosOnChunk(ct0, ct1, start + i));
    assert forall i {:trigger bits[i]} :: 0 <= i < 8 ==> bits[i] == BitAtPosOnChunk(ct0, ct1, start + i);
    bits
  }

  lemma {:induction false} NextLoaded(bits: Bits, n: nat)
    requires |bits| == 8 && 1 <= n < 8
    ensures Loaded(bits, n + 1) == (Loaded(bits, n) << 1) | bits[7 - n]
  {
  }

  lemma {:induction false} EightBits(b0: bv8, b1: bv8, b2: bv8, b3: bv8, b4: bv8, b5: bv8, b6: bv8, b7: bv8, v: bv8)
    requires (v >> 0) & 1 == b0 && (v >> 1) & 1 == b1 && (v >> 2) & 1 == b2 && (v >> 3) & 1 == b3
    requires (v >> 4) & 1 == b4 && (v >> 5) & 1 == b5 && (v >> 6) & 1 == b6 && (v >> 7) & 1 == b7
    ensures v ==
      (((((((((((((((0 | b7) << 1) | b6) << 1) | b5) << 1) | b4) << 1) | b3) << 1) | b2) << 1) | b1) << 1) | b0)
  {
  }

  /** A register loaded with the bits of a byte is that byte. */
  lemma {:induction false} LoadedIsByte(bits: Bits, v: bv8)
    requires |bits| == 8 && forall k {:trigger bits[k]} :: 0 <= k < 8 ==> bits[k] == BitAtPosSimple(v, k)
    ensures ByteOf(bits) == v
  {
    NextLoaded(bits, 1);
    NextLoaded(bits, 2);
    NextLoaded(bits, 3);
    NextLoaded(bits, 4);
    NextLoaded(bits, 5);
    NextLoaded(bits, 6);
    NextLoaded(bits, 7);
    ShiftsAreOne(v);
    EightBits(bits[0], bits[1], bits[2], bits[3], bits[4], bits[5], bits[6], bits[7], v);
  }

  method LoadByte(ct0: bv8, ct1: bv8, startBitIdInByte: nat) returns (ret: bv8)
    requires startBitIdInByte <= 4
    ensures ret == ByteOf(BitsOfByte(ct0, ct1, startBitIdInByte))
  {
    ghost var bits := BitsOfByte(ct0, ct1, startBitIdInByte);
    ret := 0;
    for i := 8 downto 0
      invariant ret == if i == 8 then 0 else if i == 0 then ByteOf(bits) else Loaded(bits, 8 - i) << 1
    {
      var b := BitAtPosOnChunk(ct0, ct1, startBitIdInByte + i);
      assert b == bits[i];
      ret := ret | b;
      if i != 0 { ret := ret << 1; }
    }
  }

  method ByteInternal(c0: Octet, c1: Octet, startBitIdInByte: nat) returns (r: Result<bv8, CodecError>)
    requires startBitIdInByte <= 4
    ensures r.Success? <==> IsSymbol(c0) && IsSymbol(c1)
    ensures r.Success? ==> r.value == ByteOf(BitsOfByte(ValueOf(c0), ValueOf(c1), startBitIdInByte))
  {
    var v0 := CheckEntry(c0);
    if v0.Failure? { return Failure(v0.error); }
    var v1 := CheckEntry(c1);
    if v1.Failure? { return Failure(v1.error); }
    var ret := LoadByte(v0.value, v1.value, startBitIdInByte);
    return Success(ret);
  }

  /** The six bits that a symbol stands for. */
  function ValueOf(c: Octet): (v: bv8)
    requires IsSymbol(c)
  {
    TablesAreInverse(0, c);
    Tab2(c)
  }

  // ----- encoding

  function OnOff(i: nat): nat {
    if i != 0 then 1 else 0
  }

  /** The least number of chunks that holds n bytes. */
  function NbChunks(n: nat): (c: nat)
    ensures c * NB_BITS >= n * 8 && (c > 0 ==> (c - 1) * NB_BITS < n * 8)
  {
    n * 8 / NB_BITS + OnOff((NB_BITS - n * 8 % NB_BITS) % NB_BITS)
  }

  lemma {:induction false} ChunkStarts(n: nat, i: nat)
    requires i < NbChunks(n)
    ensures i * NB_BITS / 8 < n && i * NB_BITS % 8 < 8
  {
  }

  /** The byte where chunk i starts and the next one; past the last byte it is that byte again. */
  function BytesAt(bytes: seq<Octet>, i: nat): (bv8, bv8)
    requires i < NbChunks(|bytes|)
  {
    ChunkStarts(|bytes|, i);
    var startByte := i * NB_BITS / 8;
    var pt1 := if startByte != |bytes| - 1 then bytes[startByte + 1] else bytes[startByte];
    (bytes[startByte], pt1)
  }

  function ChunkBits(bytes: seq<Octet>, i: nat): (bits: Bits)
    requires i < NbChunks(|bytes|)
    ensures |bits| == 6
  {
    BitsOfChunk(BytesAt(bytes, i).0, BytesAt(bytes, i).1, i * NB_BITS % 8)
  }

  function ChunkAt(bytes: seq<Octet>, i: nat): (c: bv8)
    requires i < NbChunks(|bytes|)
    ensures c < 64
  {
    ChunkHasBits(ChunkBits(bytes, i), 0);
    Pushed(ChunkBits(bytes, i), 6) >> 1
  }

  method ChunkAtPos(bytes: seq<Octet>, posChunk: nat) returns (c: bv8)
    requires posChunk < NbChunks(|bytes|)
    ensures c == ChunkAt(bytes, posChunk)
  {
    var pts := BytesAt(bytes, posChunk);
    c := ChunkInternal(pts.0, pts.1, posChunk * NB_BITS % 8);
  }

  function Symbol(v: bv8): (c: Octet)
    requires v < 64
    ensures IsSymbol(c) && ValueOf(c) == v
  {
    TablesAreInverse(v, 0);
    Tab(v)
  }

  function Encoded(bytes: seq<Octet>): (r: seq<Octet>)
    ensures |r| == NbChunks(|bytes|)
    ensures forall i {:trigger r[i]} :: 0 <= i < |r| ==> r[i] == Symbol(ChunkAt(bytes, i))
  {
    seq(NbChunks(|bytes|), i requires 0 <= i < NbChunks(|bytes|) => Symbol(ChunkAt(bytes, i)))
  }

  method ToBase64(bytes: seq<Octet>) returns (ret: seq<Octet>)
    ensures ret == Encoded(bytes)
    ensures forall c {:trigger ret[c]} :: 0 <= c < |ret| ==> IsCharacterAt(bytes, c, ret[c])
  {
    var nbChunks := NbChunks(|bytes|);
    ret := [];
    for i := 0 to nbChunks
      invariant forall c {:trigger ret[c]} :: 0 <= c < |ret| ==> IsCharacterAt(bytes, c, ret[c])
      invariant |ret| == i && forall k {:trigger ret[k]} :: 0 <= k < i ==> ret[k] == Symbol(ChunkAt(bytes, k))
    {
      var cp := ChunkAtPos(bytes, i);
      EncodedCharacter(bytes, i);
      ret := ret + [Tab(cp)];
    }
  }

  // ----- decoding

  function NbBytes(chunks: nat): nat {
    chunks * NB_BITS / 8
  }

  /** How many characters decoding looks at: all of them, but for a last one that no byte needs. */
  function NbRead(chunks: nat): nat {
    if chunks % 4 == 1 then chunks - 1 else chunks
  }

  lemma {:induction false} FourByThree(chunks: nat)
    ensures var m, r := chunks / 4, chunks % 4;
            chunks == 4 * m + r && chunks * 6 / 8 == 3 * m + if r == 0 then 0 else r - 1
  {
    var m, r := chunks / 4, chunks % 4;
    assert chunks * 6 == 8 * (3 * m) + 6 * r;
  }

  lemma {:induction false} ThreeByFour(i: nat)
    ensures var a, b := i / 3, i % 3;
            i == 3 * a + b && i * 8 / 6 == 4 * a + b && i * 8 % 6 == 2 * b
  {
    var a, b := i / 3, i % 3;
    assert i * 8 == 6 * (4 * a + b) + 2 * b;
  }

  /** Byte i is read from two consecutive characters. */
  lemma {:induction false} ReadPositions(chunks: nat, i: nat)
    requires i < NbBytes(chunks)
    ensures i * 8 / NB_BITS + 1 < NbRead(chunks) && i * 8 % NB_BITS <= 4
  {
    FourByThree(chunks);
    ThreeByFour(i);
  }

  /** Together the bytes read the first NbRead characters. */
  lemma {:induction false} EveryReadPosition(chunks: nat, k: nat)
    requires k < NbRead(chunks)
    ensures var j := k * NB_BITS / 8; j < NbBytes(chunks) && (k == j * 8 / NB_BITS || k == j * 8 / NB_BITS + 1)
  {
    FourByThree(chunks);
    FourByThree(k);
    ThreeByFour(k * NB_BITS / 8);
  }

  /** Byte i, as it is loaded from two characters. */
  function DecodedByte(s: seq<Octet>, i: nat): Octet
    requires i < NbBytes(|s|) && AllSymbols(s, NbRead(|s|))
  {
    ReadPositions(|s|, i);
    var c := i * 8 / NB_BITS;
    ByteOf(BitsOfByte(ValueOf(s[c]), ValueOf(s[c + 1]), i * 8 % NB_BITS))
  }


  ghost predicate AllSymbols(s: seq<Octet>, n: nat)
    requires n <= |s|
  {
    forall k {:trigger s[k]} :: 0 <= k < n ==> IsSymbol(s[k])
  }

  function Decoded(s: seq<Octet>): (r: Result<seq<Octet>, CodecError>)
    ensures r.Success? <==> AllSymbols(s, NbRead(|s|))
    ensures r.Success? ==> |r.value| == NbBytes(|s|)
    ensures r.Success? ==> forall i {:trigger r.value[i]} :: 0 <= i < |r.value| ==> r.value[i] == DecodedByte(s, i)
  {
    if forall k {:trigger s[k]} :: 0 <= k < NbRead(|s|) ==> IsSymbol(s[k])
    then Success(seq(NbBytes(|s|), i requires 0 <= i < NbBytes(|s|) && AllSymbols(s, NbRead(|s|)) => DecodedByte(s, i)))
    else Failure(InvalidCharacter)
  }

  method ByteAtPos(chunks: seq<Octet>, bytePos: nat) returns (r: Result<Octet, CodecError>)
    requires bytePos < NbBytes(|chunks|)
    ensures r.Success? <==> BothSymbols(chunks, bytePos)
    ensures r.Success? ==> IsDecodedByte(chunks, bytePos, r.value)
  {
    ReadPositions(|chunks|, bytePos);
    var startChunk := bytePos * 8 / NB_BITS;
    var b := ByteInternal(chunks[startChunk], chunks[startChunk + 1], bytePos * 8 % NB_BITS);
    if b.Failure? { return Failure(b.error); }
    return Success(b.value);
  }

  /** Decoding fails exactly when one of the characters it reads is not a symbol. */
  method FromBase64(bytes: seq<Octet>) returns (r: Result<seq<Octet>, CodecError>)
    ensures r == Decoded(bytes)
  {
    var nbBytesOutput := NbBytes(|bytes|);
    var ret: seq<Octet> := [];
    for i := 0 to nbBytesOutput
      invariant |ret| == i
      invariant forall k: nat {:trigger BothSymbols(bytes, k)} :: k < i ==> BothSymbols(bytes, k)
      invariant forall k {:trigger ret[k]} :: 0 <= k < i ==> IsDecodedByte(bytes, k, ret[k])
    {
      var b := ByteAtPos(bytes, i);
      if b.Failure? {
        if AllSymbols(bytes, NbRead(|bytes|)) { BothAreRead(bytes, i); }
        return Failure(InvalidCharacter);
      }
      ret := ret + [b.value];
    }
    AllDecoded(bytes, ret);
    return Success(ret);
  }

  lemma {:induction false} AllDecoded(s: seq<Octet>, ret: seq<Octet>)
    requires |ret| == NbBytes(|s|)
    requires forall k: nat {:trigger BothSymbols(s, k)} :: k < |ret| ==> BothSymbols(s, k)
    requires forall k {:trigger ret[k]} :: 0 <= k < |ret| ==> IsDecodedByte(s, k, ret[k])
    ensures Decoded(s) == Success(ret)
  {
    forall k | 0 <= k < NbRead(|s|) ensures IsSymbol(s[k]) {
      EveryReadPosition(|s|, k);
      assert BothSymbols(s, k * NB_BITS / 8);
    }
    var d := Decoded(s).value;
    forall k | 0 <= k < |ret| ensures d[k] == ret[k] {
      assert IsDecodedByte(s, k, ret[k]);
    }
    assert d == ret;
  }

  /** If the characters can be decoded, v is byte i of the result. */
  ghost predicate IsDecodedByte(s: seq<Octet>, i: nat, v: Octet) {
    i < NbBytes(|s|) && (AllSymbols(s, NbRead(|s|)) ==> v == DecodedByte(s, i))
  }

  /** The two characters of byte i are symbols. */
  ghost predicate BothSymbols(s: seq<Octet>, i: nat) {
    var c := i * 8 / NB_BITS;
    c + 1 < |s| && IsSymbol(s[c]) && IsSymbol(s[c + 1])
  }

  lemma {:induction false} BothAreRead(s: seq<Octet>, i: nat)
    requires i < NbBytes(|s|) && AllSymbols(s, NbRead(|s|))
    ensures BothSymbols(s, i)
  {
    ReadPositions(|s|, i);
  }

  /** On invalid input the bytes are given back as they are. */
  method FromBase64Safe(bytes: seq<Octet>) returns (ret: seq<Octet>)
    ensures ret == DecodedSafe(bytes)
  {
    var r := FromBase64(bytes);
    return if r.Success? then r.value else bytes;
  }

  function DecodedSafe(bytes: seq<Octet>): seq<Octet> {
    if Decoded(bytes).Success? then Decoded(bytes).value else bytes
  }

  /** A character that is no symbol goes unnoticed exactly when it is a last one that no byte needs. */
  lemma {:induction false} InvalidUnnoticedIff(s: seq<Octet>)
    ensures Decoded(s).Success? && !AllSymbols(s, |s|) <==>
      |s| % 4 == 1 && AllSymbols(s, |s| - 1) && !IsSymbol(s[|s| - 1])
    ensures !IsSymbol(33) && DecodedSafe([33]) == []
  {
    TablesAreInverse(0, 33);
    var bang: seq<Octet> := [33];
    assert NbBytes(|bang|) == 0 && NbRead(|bang|) == 0;
    assert Decoded(bang).Success?;
  }

  // ----- the text, bit by bit

  /** A bit is looked up where it stands. */
  lemma {:induction false} BitIs(val: bv8, k: nat)
    requires k < 8
    ensures BitAtPosSimple(val, k) == (val >> k) & 1
  {
    ShiftsAreOne(val);
    assert k == 0 || k == 1 || k == 2 || k == 3 || k == 4 || k == 5 || k == 6 || k == 7;
  }

  /** Bit k of the bytes, one after the other, each with its lowest bit first; past the end, those of the last byte
      again. */
  function StreamBit(bytes: seq<Octet>, k: nat): bv8
    requires 0 < |bytes| && k < 8 * |bytes| + 8
  {
    if k < 8 * |bytes| then (bytes[k / 8] >> (k % 8)) & 1 else (bytes[|bytes| - 1] >> (k - 8 * |bytes|)) & 1
  }

  lemma {:induction false} StreamOfChunk(n: nat, c: nat, pos: nat)
    requires c < NbChunks(n) && pos < 6
    ensures var k, start := 6 * c + pos, 6 * c % 8 + pos;
            && n > 0 && k < 8 * n + 8 && start < 14 && 6 * c / 8 < n
            && (if start < 8 then k / 8 == 6 * c / 8 && k % 8 == start
                else if 6 * c / 8 == n - 1 then k >= 8 * n && k - 8 * n == start - 8
                else k < 8 * n && k / 8 == 6 * c / 8 + 1 && k % 8 == start - 8)
  {
  }

  /** The six bits of a chunk follow one another in the bytes. */
  lemma {:induction false} ChunkBitIs(bytes: seq<Octet>, c: nat, pos: nat)
    requires c < NbChunks(|bytes|) && pos < 6
    ensures 0 < |bytes| && 6 * c + pos < 8 * |bytes| + 8
    ensures BitAtPosSimple2(ChunkAt(bytes, c), pos) == StreamBit(bytes, 6 * c + pos)
  {
    StreamOfChunk(|bytes|, c, pos);
    ChunkHasBits(ChunkBits(bytes, c), pos);
    var pts, start := BytesAt(bytes, c), 6 * c % 8 + pos;
    if start < 8 { BitIs(pts.0, start); } else { BitIs(pts.1, start - 8); }
  }

  lemma {:induction false} ChunkBitOf(v: bv8, pos: nat)
    requires pos < 6
    ensures BitAtPosSimple2(v, pos) == (v >> (5 - pos)) & 1
  {
    BitIs(v, 5 - pos);
  }

  ghost predicate IsBitAt(bytes: seq<Octet>, c: nat, v: bv8, pos: nat) {
    && 0 < |bytes| && pos < 6 && 6 * c + pos < 8 * |bytes| + 8
    && (v >> (5 - pos)) & 1 == StreamBit(bytes, 6 * c + pos)
  }

  /** The value of character c of the text has six bits of the bytes, the first one highest. */
  ghost predicate HasBitsAt(bytes: seq<Octet>, c: nat, v: bv8) {
    forall pos: nat :: pos < 6 ==> IsBitAt(bytes, c, v, pos)
  }

  /** Character c of the text is the letter of the six bits. */
  ghost predicate IsCharacterAt(bytes: seq<Octet>, c: nat, l: Octet) {
    exists v {:trigger HasBitsAt(bytes, c, v)} :: IsLetter(l, v) && HasBitsAt(bytes, c, v)
  }

  lemma {:induction false} CharacterBit(bytes: seq<Octet>, c: nat, pos: nat)
    requires c < NbChunks(|bytes|) && pos < 6
    ensures IsBitAt(bytes, c, ChunkAt(bytes, c), pos)
  {
    ChunkBitIs(bytes, c, pos);
    ChunkBitOf(ChunkAt(bytes, c), pos);
  }

  /** Every character of an encoded text. */
  lemma {:induction false} EncodedCharacter(bytes: seq<Octet>, c: nat)
    requires c < NbChunks(|bytes|)
    ensures IsCharacterAt(bytes, c, Symbol(ChunkAt(bytes, c)))
  {
    var v := ChunkAt(bytes, c);
    forall pos: nat | pos < 6 ensures IsBitAt(bytes, c, v, pos) { CharacterBit(bytes, c, pos); }
    SymbolIsLetter(v);
    assert HasBitsAt(bytes, c, v);
  }

  lemma {:induction false} EightBitsKept(b0: bv8, b1: bv8, b2: bv8, b3: bv8, b4: bv8, b5: bv8, b6: bv8, b7: bv8,
      v: bv8)
    requires b0 <= 1 && b1 <= 1 && b2 <= 1 && b3 <= 1 && b4 <= 1 && b5 <= 1 && b6 <= 1 && b7 <= 1
    requires v ==
      (((((((((((((((0 | b7) << 1) | b6) << 1) | b5) << 1) | b4) << 1) | b3) << 1) | b2) << 1) | b1) << 1) | b0)
    ensures (v >> 0) & 1 == b0 && (v >> 1) & 1 == b1 && (v >> 2) & 1 == b2 && (v >> 3) & 1 == b3
    ensures (v >> 4) & 1 == b4 && (v >> 5) & 1 == b5 && (v >> 6) & 1 == b6 && (v >> 7) & 1 == b7
  {
  }

  /** A loaded register has the bits that were put in. */
  lemma {:induction false} LoadedHasBits(bits: Bits, k: nat)
    requires |bits| == 8 && k < 8
    ensures BitAtPosSimple(ByteOf(bits), k) == bits[k]
  {
    BitIs(ByteOf(bits), k);
    NextLoaded(bits, 1);
    NextLoaded(bits, 2);
    NextLoaded(bits, 3);
    NextLoaded(bits, 4);
    NextLoaded(bits, 5);
    NextLoaded(bits, 6);
    NextLoaded(bits, 7);
    EightBitsKept(bits[0], bits[1], bits[2], bits[3], bits[4], bits[5], bits[6], bits[7], ByteOf(bits));
    assert k == 0 || k == 1 || k == 2 || k == 3 || k == 4 || k == 5 || k == 6 || k == 7;
  }

  lemma {:induction false} ChunkOfBit(i: nat, k: nat)
    requires k < 8
    ensures var c, start := i * 8 / 6, i * 8 % 6;
            && start <= 4
            && (if start + k < 6 then (8 * i + k) / 6 == c && (8 * i + k) % 6 == start + k
                else (8 * i + k) / 6 == c + 1 && (8 * i + k) % 6 == start + k - 6)
  {
    ThreeByFour(i);
  }

  lemma {:induction false} BitOfLoaded(v0: bv8, v1: bv8, start: nat, k: nat)
    requires start <= 4 && k < 8
    ensures BitAtPosSimple(ByteOf(BitsOfByte(v0, v1, start)), k) ==
      if start + k < 6 then BitAtPosSimple(v0, 5 - (start + k)) else BitAtPosSimple(v1, 5 - (start + k - 6))
  {
    LoadedHasBits(BitsOfByte(v0, v1, start), k);
  }

  /** Bit k of byte i of a decoded text, whoever wrote it: a bit of the value of one letter. */
  lemma {:induction false} DecodedBitIs(s: seq<Octet>, i: nat, k: nat, v: bv8)
    requires i < NbBytes(|s|) && AllSymbols(s, NbRead(|s|)) && k < 8
    requires (8 * i + k) / 6 < |s| && IsLetter(s[(8 * i + k) / 6], v)
    ensures BitAtPosSimple(DecodedByte(s, i), k) == BitAtPosSimple(v, 5 - (8 * i + k) % 6)
  {
    ReadPositions(|s|, i);
    ChunkOfBit(i, k);
    LetterHasValue(s[(8 * i + k) / 6], v);
    var c := i * 8 / 6;
    BitOfLoaded(ValueOf(s[c]), ValueOf(s[c + 1]), i * 8 % 6, k);
  }

  // ----- the round trip

  lemma {:induction false} SameBit(n: nat, c: nat, pos: nat, i: nat, k: nat)
    requires pos < 6 && k < 8 && i < n && c * NB_BITS + pos == i * 8 + k
    ensures c < NbChunks(n)
    ensures var start := c * NB_BITS % 8 + pos;
            if start < 8 then c * NB_BITS / 8 == i && start == k else c * NB_BITS / 8 + 1 == i && start - 8 == k
  {
  }

  lemma {:induction false} BitOfBytes(bytes: seq<Octet>, c: nat, pos: nat, i: nat, k: nat)
    requires pos < 6 && k < 8 && i < |bytes| && c * NB_BITS + pos == i * 8 + k && c < NbChunks(|bytes|)
    ensures BitAtPos(BytesAt(bytes, c).0, BytesAt(bytes, c).1, c * NB_BITS % 8 + pos) == BitAtPosSimple(bytes[i], k)
  {
    SameBit(|bytes|, c, pos, i, k);
  }

  /** Bit pos of chunk c is bit k of byte i when both are the same bit of the stream. */
  lemma {:induction false} ChunkBitIsByteBit(bytes: seq<Octet>, c: nat, pos: nat, i: nat, k: nat)
    requires pos < 6 && k < 8 && i < |bytes| && c * NB_BITS + pos == i * 8 + k && c < NbChunks(|bytes|)
    ensures BitAtPosSimple2(ChunkAt(bytes, c), pos) == BitAtPosSimple(bytes[i], k)
  {
    var bits := ChunkBits(bytes, c);
    ChunkHasBits(bits, pos);
    BitOfBytes(bytes, c, pos, i, k);
  }

  lemma {:induction false} SizesMatch(n: nat)
    ensures NbBytes(NbChunks(n)) == n
  {
  }

  /** Bit k of byte i, looked up in the chunks of the bytes. */
  lemma {:induction false} DecodedBit(bytes: seq<Octet>, i: nat, k: nat)
    requires i < |bytes| && k < 8
    ensures var c, start := i * 8 / NB_BITS, i * 8 % NB_BITS;
            && c + 1 < NbChunks(|bytes|) && start <= 4
            && BitAtPosOnChunk(ChunkAt(bytes, c), ChunkAt(bytes, c + 1), start + k)
              == BitAtPosSimple(bytes[i], k)
  {
    var c, start := i * 8 / NB_BITS, i * 8 % NB_BITS;
    SizesMatch(|bytes|);
    ReadPositions(NbChunks(|bytes|), i);
    if start + k < 6 {
      ChunkBitIsByteBit(bytes, c, start + k, i, k);
    } else {
      ChunkBitIsByteBit(bytes, c + 1, start + k - 6, i, k);
    }
  }

  lemma {:induction false} BitsMakeByte(bytes: seq<Octet>, i: nat, ct0: bv8, ct1: bv8, start: nat)
    requires i < |bytes| && start == i * 8 % NB_BITS <= 4 && i * 8 / NB_BITS + 1 < NbChunks(|bytes|)
    requires ct0 == ChunkAt(bytes, i * 8 / NB_BITS) && ct1 == ChunkAt(bytes, i * 8 / NB_BITS + 1)
    ensures ByteOf(BitsOfByte(ct0, ct1, start)) == bytes[i]
  {
    var bits := BitsOfByte(ct0, ct1, start);
    forall k | 0 <= k < 8 ensures bits[k] == BitAtPosSimple(bytes[i], k) {
      DecodedBit(bytes, i, k);
    }
    LoadedIsByte(bits, bytes[i]);
  }

  lemma {:induction false} DecodeEncodedByte(bytes: seq<Octet>, i: nat)
    requires i < |bytes|
    ensures i < NbBytes(|Encoded(bytes)|) && DecodedByte(Encoded(bytes), i) == bytes[i]
  {
    SizesMatch(|bytes|);
    var s, c := Encoded(bytes), i * 8 / NB_BITS;
    ReadPositions(|s|, i);
    BitsMakeByte(bytes, i, ChunkAt(bytes, c), ChunkAt(bytes, c + 1), i * 8 % NB_BITS);
    assert s[c] == Symbol(ChunkAt(bytes, c)) && s[c + 1] == Symbol(ChunkAt(bytes, c + 1));
  }

  /** Decoding what was encoded gives it back, by both entries. */
  lemma {:induction false} RoundTrip(bytes: seq<Octet>)
    ensures Decoded(Encoded(bytes)) == Success(bytes) && DecodedSafe(Encoded(bytes)) == bytes
  {
    var s, d := Encoded(bytes), Decoded(Encoded(bytes));
    SizesMatch(|bytes|);
    assert d.Success? && |d.value| == |bytes|;
    forall i | 0 <= i < |bytes| ensures d.value[i] == bytes[i] {
      DecodeEncodedByte(bytes, i);
    }
    assert d.value == bytes;
  }
}
