/** The table-driven CRC-32 of the event digest, against its bit-serial definition. */
module Crc32 {
  import opened Core

  /** A register of 32 bits; the algebra below is all the proofs need of it. */
  datatype Word = Word(bits: bv32)

  const POLYNOMIAL: Word := Word(0xedb8_8320)
  const INITIAL: Word := Word(0xffff_ffff)

  function Xor(a: Word, b: Word): Word {
    Word(a.bits ^ b.bits)
  }

  function Half(a: Word): Word {
    Word(a.bits >> 1)
  }

  function Shift8(a: Word): Word {
    Word(a.bits >> 8)
  }

  predicate Odd(a: Word) {
    a.bits & 1 == 1
  }

  /** A byte in a register. */
  function OfByte(b: byte): Word {
    Word((b as bv8) as bv32)
  }

  function LowByte(a: Word): byte {
    (a.bits & 0xff) as bv8 as int
  }

  /** The register with its low byte cleared. */
  function Upper(a: Word): Word {
    Word(a.bits & 0xffff_ff00)
  }

  // ---- definitions ------------------------------------------------------------

  /** One step of the reflected shift register. */
  function Step(v: Word): Word {
    if Odd(v) then Xor(POLYNOMIAL, Half(v)) else Half(v)
  }

  function Steps(v: Word, n: nat): Word {
    if n == 0 then v else Step(Steps(v, n - 1))
  }

  /** The reference: the byte is added to the register, which then makes eight steps. */
  function SerialByte(state: Word, b: byte): Word {
    Steps(Xor(state, OfByte(b)), 8)
  }

  function Serial(state: Word, bytes: seq<byte>): Word {
    if bytes == [] then state
    else SerialByte(Serial(state, bytes[..|bytes| - 1]), bytes[|bytes| - 1])
  }

  /** The table entry for a byte. */
  function Entry(index: byte): Word {
    Steps(OfByte(index), 8)
  }

  /** `crc32_update` on one byte: one table lookup and one shift. */
  function TableByte(state: Word, b: byte): Word {
    Xor(Entry(LowByte(Xor(state, OfByte(b)))), Shift8(state))
  }

  // ---- bit facts -----------------------------------------------------------------

  lemma XorAssoc(a: Word, b: Word, c: Word)
    ensures Xor(Xor(a, b), c) == Xor(a, Xor(b, c))
  {}

  lemma XorComm(a: Word, b: Word)
    ensures Xor(a, b) == Xor(b, a)
  {}

  lemma XorCancels(p: Word, a: Word, b: Word)
    ensures Xor(Xor(p, a), Xor(p, b)) == Xor(a, b)
  {
    hide Xor;
    XorComm(p, a);
    XorAssoc(a, p, Xor(p, b));
    XorTwice(p, b);
  }

  lemma XorTwice(p: Word, b: Word)
    ensures Xor(p, Xor(p, b)) == b
  {}

  lemma HalfOfXor(a: Word, b: Word)
    ensures Half(Xor(a, b)) == Xor(Half(a), Half(b))
  {}

  lemma Shift8OfXor(a: Word, b: Word)
    ensures Shift8(Xor(a, b)) == Xor(Shift8(a), Shift8(b))
  {}

  lemma OddOfXor(a: Word, b: Word)
    ensures Odd(Xor(a, b)) <==> Odd(a) != Odd(b)
  {}

  lemma SplitWord(v: Word)
    ensures v == Xor(OfByte(LowByte(v)), Upper(v))
  {
    LowByteIsLow(v);
    hide OfByte, LowByte;
    XorOfParts(v);
  }

  lemma XorOfParts(v: Word)
    ensures v == Xor(Word(v.bits & 0xff), Upper(v))
  {}

  lemma UpperShiftsOut(v: Word)
    ensures Shift8(Upper(v)) == Shift8(v)
  {}

  lemma LowByteIsLow(v: Word)
    ensures OfByte(LowByte(v)) == Word(v.bits & 0xff)
  {
    var x := (v.bits & 0xff) as bv8;
    IndexRoundTrip(x);
    assert x as bv32 == v.bits & 0xff;
  }

  lemma IndexRoundTrip(x: bv8)
    ensures 0 <= x as int < 256 && (x as int) as bv8 == x
  {}

  lemma ByteShiftsOut(b: byte)
    ensures Shift8(OfByte(b)) == Word(0)
  {
    var w: bv8 := b as bv8;
    assert (w as bv32) >> 8 == 0;
  }

  lemma XorZero(a: Word)
    ensures Xor(a, Word(0)) == a
  {}

  /** The lowest `n` bits. */
  function Mask(n: nat): bv32
    requires n <= 8
  {
    match n
    case 0 => 0
    case 1 => 0x1
    case 2 => 0x3
    case 3 => 0x7
    case 4 => 0xf
    case 5 => 0x1f
    case 6 => 0x3f
    case 7 => 0x7f
    case _ => 0xff
  }

  predicate Clear(a: Word, n: nat)
    requires n <= 8
  {
    a.bits & Mask(n) == 0
  }

  lemma ClearHalves(a: Word, n: nat)
    requires n < 8 && Clear(a, n + 1)
    ensures !Odd(a) && Clear(Half(a), n)
  {
    match n
    case 0 => assert a.bits & 0x1 == 0;
    case 1 => assert a.bits & 0x3 == 0;
    case 2 => assert a.bits & 0x7 == 0;
    case 3 => assert a.bits & 0xf == 0;
    case 4 => assert a.bits & 0x1f == 0;
    case 5 => assert a.bits & 0x3f == 0;
    case 6 => assert a.bits & 0x7f == 0;
    case _ => assert a.bits & 0xff == 0;
  }

  function Halves(v: Word, n: nat): Word {
    if n == 0 then v else Half(Halves(v, n - 1))
  }

  lemma NestedHalves(v: Word)
    ensures Half(Half(Half(Half(Half(Half(Half(Half(v)))))))) == Shift8(v)
  {}

  lemma EightHalves(v: Word)
    ensures Halves(v, 8) == Shift8(v)
  {
    hide Half, Shift8;
    NestedHalves(v);
    assert Halves(v, 1) == Half(v);
    assert Halves(v, 2) == Half(Half(v));
    assert Halves(v, 4) == Half(Half(Halves(v, 2)));
    assert Halves(v, 6) == Half(Half(Halves(v, 4)));
  }

  lemma UpperClear(v: Word)
    ensures Clear(Upper(v), 8)
  {}

  // ---- the table step is eight serial steps -------------------------------------

  /** XOR linearity of one step. */
  lemma StepLinear(x: Word, y: Word)
    ensures Step(Xor(x, y)) == Xor(Step(x), Step(y))
  {
    hide Xor, Half, Odd;
    OddOfXor(x, y);
    HalfOfXor(x, y);
    var sx, sy := Half(x), Half(y);
    XorCancels(POLYNOMIAL, sx, sy);
    XorAssoc(POLYNOMIAL, sx, sy);
    XorComm(POLYNOMIAL, sx);
    XorAssoc(sx, POLYNOMIAL, sy);
  }

  lemma {:induction false} StepsLinear(x: Word, y: Word, n: nat)
    ensures Steps(Xor(x, y), n) == Xor(Steps(x, n), Steps(y, n))
    decreases n
  {
    hide Step, Xor;
    if n > 0 {
      StepsLinear(x, y, n - 1);
      StepLinear(Steps(x, n - 1), Steps(y, n - 1));
    }
  }

  /** A register whose low bits are zero is only halved by as many steps. */
  lemma {:induction false} ClearSteps(v: Word, n: nat)
    requires n <= 8 && Clear(v, 8)
    ensures Steps(v, n) == Halves(v, n) && Clear(Halves(v, n), 8 - n)
    decreases n
  {
    hide Xor, Odd, Half, Clear;
    if n > 0 {
      ClearSteps(v, n - 1);
      ClearHalves(Halves(v, n - 1), 8 - n);
    }
  }

  /** For every register and byte, one table step equals eight steps of the shift register. */
  lemma TableStepIsSerial(state: Word, b: byte)
    ensures TableByte(state, b) == SerialByte(state, b)
  {
    hide Xor, Shift8, Upper, Steps, OfByte, LowByte, Halves, Clear;
    var v := Xor(state, OfByte(b));
    SplitWord(v);
    StepsLinear(OfByte(LowByte(v)), Upper(v), 8);
    UpperClear(v);
    ClearSteps(Upper(v), 8);
    EightHalves(Upper(v));
    UpperShiftsOut(v);
    Shift8OfXor(state, OfByte(b));
    ByteShiftsOut(b);
    XorZero(Shift8(state));
  }

  /** Updating by pieces is updating by their concatenation. */
  lemma {:induction false} SerialConcat(state: Word, a: seq<byte>, b: seq<byte>)
    ensures Serial(state, a + b) == Serial(Serial(state, a), b)
    decreases b
  {
    hide SerialByte;
    if b == [] {
      assert a + b == a;
    } else {
      assert (a + b)[..|a + b| - 1] == a + b[..|b| - 1];
      SerialConcat(state, a, b[..|b| - 1]);
    }
  }

  // ---- the C code ----------------------------------------------------------------

  /** `g_crc32_table` and `g_crc32_ready`. */
  class Table {
    var entries: array<Word>
    var ready: bool

    ghost predicate Valid()
      reads this, entries
    {
      entries.Length == 256 && (ready ==> forall i :: 0 <= i < 256 ==> entries[i] == Entry(i))
    }

    constructor ()
      ensures Valid() && !ready && fresh(entries)
    {
      entries := new Word[256](_ => Word(0));
      ready := false;
    }

    /** `crc32_prepare`: the nested loops that fill the table, once. */
    method Prepare()
      requires Valid()
      modifies this`ready, entries
      ensures Valid() && ready
    {
      hide Xor, Half, Odd, OfByte;
      if ready {
        return;
      }
      for index := 0 to 256
        invariant forall i :: 0 <= i < index ==> entries[i] == Entry(i)
      {
        var value := OfByte(index);
        for bit := 0 to 8
          invariant value == Steps(OfByte(index), bit)
          invariant forall i :: 0 <= i < index ==> entries[i] == Entry(i)
        {
          if Odd(value) {
            value := Xor(POLYNOMIAL, Half(value));
          } else {
            value := Half(value);
          }
        }
        entries[index] := value;
      }
      ready := true;
    }

    /** `crc32_update`: the loop over the bytes, from register `value`. */
    method Update(value: Word, bytes: seq<byte>) returns (result: Word)
      requires Valid() && ready
      ensures result == Serial(value, bytes)
    {
      hide Xor, Shift8, OfByte, LowByte, SerialByte, Entry;
      result := value;
      for index := 0 to |bytes|
        invariant result == Serial(value, bytes[..index])
      {
        assert bytes[..index + 1][..index] == bytes[..index];
        TableStepIsSerial(result, bytes[index]);
        result := Xor(entries[LowByte(Xor(result, OfByte(bytes[index])))], Shift8(result));
      }
      assert bytes[..|bytes|] == bytes;
    }
  }
}
