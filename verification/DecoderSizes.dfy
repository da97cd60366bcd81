/**
  The decoder's memory: how often it allocates, how much, and for which input lengths
  its size computations stay within the C `int` they are made in.
 */
module DecoderSizes {
  import opened Core
  import opened Utf8
  import opened UnknownEncodingDecoder

  const INT_MAX: int := 0x7fff_ffff

  // ---- bounds ------------------------------------------------------------------------

  lemma {:induction false} LengthIsText(start: nat, cs: seq<scalar>)
    ensures SizeAfter(start, cs).length == |EncodeAll(cs)|
    decreases |cs|
  {
    hide Encode, Fits, CapacityAfter;
    if cs != [] {
      var init, last := cs[..|cs| - 1], cs[|cs| - 1];
      LengthIsText(start, init);
      EncodeSnoc(init, last);
      assert cs == init + [last];
    }
  }

  /** No character of the input gives more than three bytes for each of its own. */
  lemma FrontSize(e: Encoding, input: seq<byte>)
    requires TableValid(e) && input != [] && FrontOf(e, input).Character?
    ensures |Encode(FrontOf(e, input).c)| <= 3 * FrontOf(e, input).length
  {
    assert EntryValid(e, input[0], e.table[input[0]]);
    EncodedSize(FrontOf(e, input).c);
  }

  lemma EncodedSize(c: scalar)
    ensures |Encode(c)| <= 4 && (c <= 0xffff ==> |Encode(c)| <= 3)
  {}

  lemma {:induction false} ReadSize(e: Encoding, input: seq<byte>)
    requires TableValid(e)
    ensures |EncodeAll(Read(e, input))| <= 3 * |input|
    decreases |input|
  {
    hide Encode, FrontOf, TableValid;
    if input != [] && FrontOf(e, input).Character? {
      var f := FrontOf(e, input);
      var rest := Read(e, input[f.length..]);
      FrontSize(e, input);
      ReadSize(e, input[f.length..]);
      assert ([f.c] + rest)[1..] == rest;
    }
  }

  /** The array is enlarged at most once: doubled, which is enough for the rest of the input. */
  lemma {:induction false} EnlargedOnce(n: nat, cs: seq<scalar>)
    requires |EncodeAll(cs)| <= 3 * n
    ensures var z := SizeAfter(FirstCapacity(n), cs);
      && 1 <= z.requests <= 2
      && z.capacity == (if z.requests == 2 then 2 * FirstCapacity(n) else FirstCapacity(n))
      && (z.requests == 2 ==> FirstCapacity(n) < 3 * n + 1)
    decreases |cs|
  {
    hide Encode, EncodeAll;
    if cs != [] {
      var init, last := cs[..|cs| - 1], cs[|cs| - 1];
      assert cs == init + [last];
      EncodeSnoc(init, last);
      EnlargedOnce(n, init);
      LengthIsText(FirstCapacity(n), init);
    }
  }

  /**
    Whatever the table and the input: at most three bytes of output for a byte of input,
    at most two allocations, and never more than max(16, 6 * length + 1) bytes.
   */
  lemma OutputIsBounded(e: Encoding, input: seq<byte>)
    requires TableValid(e)
    ensures var z := SizeAfter(FirstCapacity(|input|), Read(e, input));
      && z.length <= 3 * |input|
      && 16 <= z.capacity
      && z.capacity <= Max(16, 6 * |input| + 1)
      && Requests(e, input) <= 2
  {
    hide SizeAfter, EncodeAll, TableValid, Read;
    ReadSize(e, input);
    LengthIsText(FirstCapacity(|input|), Read(e, input));
    EnlargedOnce(|input|, Read(e, input));
  }

  /** An input that decodes is read to its end. */
  lemma {:induction false} DecodedIsRead(e: Encoding, input: seq<byte>)
    requires TableValid(e) && Decode(e, input).Scalars?
    ensures Decode(e, input).cs == Read(e, input)
    decreases |input|
  {
    hide FrontOf, TableValid;
    if input != [] {
      DecodedIsRead(e, input[FrontOf(e, input).length..]);
    }
  }

  // ---- C arithmetic -----------------------------------------------------------------------

  /** One append stays in `int`: the sum it needs, and the doubled capacity if it does not fit. */
  predicate StepInInt(z: Size, c: scalar) {
    && z.length + |Encode(c)| + 1 <= INT_MAX
    && (!Fits(z.length, z.capacity, c) ==> 2 * z.capacity <= INT_MAX)
  }

  predicate StepsInInt(start: nat, cs: seq<scalar>) {
    forall k :: 0 <= k < |cs| ==> StepInInt(SizeAfter(start, cs[..k]), cs[k])
  }

  /** All size computations for this input stay in `int`, the first one included. */
  predicate InInt(e: Encoding, input: seq<byte>)
    requires TableValid(e)
  {
    2 * |input| + 1 <= INT_MAX && StepsInInt(FirstCapacity(|input|), Read(e, input))
  }

  lemma PrefixSize(cs: seq<scalar>, k: nat)
    requires k < |cs|
    ensures |EncodeAll(cs[..k])| + |Encode(cs[k])| <= |EncodeAll(cs)|
  {
    hide Encode, EncodeAll;
    EncodeSnoc(cs[..k], cs[k]);
    EncodeAllConcat(cs[..k + 1], cs[k + 1..]);
    assert cs[..k] + [cs[k]] == cs[..k + 1];
    assert cs[..k + 1] + cs[k + 1..] == cs;
  }

  /** The largest input length for which the arithmetic is safe whatever the table. */
  const SAFE_LENGTH: int := 536_870_911

  lemma SafeStaysInInt(e: Encoding, input: seq<byte>)
    requires TableValid(e) && |input| <= SAFE_LENGTH
    ensures InInt(e, input)
  {
    hide SizeAfter, Encode, EncodeAll, Read, TableValid;
    var start, cs := FirstCapacity(|input|), Read(e, input);
    ReadSize(e, input);
    forall k | 0 <= k < |cs| ensures StepInInt(SizeAfter(start, cs[..k]), cs[k]) {
      PrefixSize(cs, k);
      LengthIsText(start, cs[..k]);
      EnlargedOnce(|input|, cs[..k]);
      OnceEnlargedFits(|input|, SizeAfter(start, cs[..k]), cs[k]);
    }
  }

  lemma OnceEnlargedFits(n: nat, z: Size, c: scalar)
    requires n <= SAFE_LENGTH && z.length + |Encode(c)| <= 3 * n
    requires 1 <= z.requests <= 2
    requires z.capacity == if z.requests == 2 then 2 * FirstCapacity(n) else FirstCapacity(n)
    ensures StepInInt(z, c)
  {
    hide Encode;
  }

  // ---- a longer input that does overflow --------------------------------------------------

  /** ASCII to itself, every other byte to a character of three bytes. */
  function Wide(): (e: Encoding)
    ensures TableValid(e) && (forall i :: 128 <= i < 256 ==> e.table[i] == 0x800)
  {
    Encoding(seq(256, i => if i < 128 then i else 0x800), None, false)
  }

  function HighBytes(n: nat): seq<byte> {
    seq(n, _ => 0x80)
  }

  function WideText(n: nat): (cs: seq<scalar>)
    ensures |cs| == n
  {
    seq(n, _ => 0x800)
  }

  lemma {:induction false} WideRead(n: nat)
    ensures Read(Wide(), HighBytes(n)) == WideText(n)
    decreases n
  {
    hide Wide;
    if n > 0 {
      WideRead(n - 1);
      assert HighBytes(n)[1..] == HighBytes(n - 1);
      assert WideText(n) == [0x800] + WideText(n - 1);
    }
  }

  /** While the first allocation lasts, only the length grows. */
  lemma {:induction false} WideSizes(start: nat, k: nat)
    requires 3 * k + 1 <= start
    ensures SizeAfter(start, WideText(k)) == Size(3 * k, start, 1)
    decreases k
  {
    if k > 0 {
      assert WideText(k)[..k - 1] == WideText(k - 1);
      WideSizes(start, k - 1);
      assert |Encode(0x800)| == 3;
    }
  }

  lemma LongOverflows(n: nat)
    requires n > SAFE_LENGTH
    ensures !InInt(Wide(), HighBytes(n))
  {
    hide SizeAfter, Read, Wide;
    var start, k := FirstCapacity(n), 2 * n / 3;
    WideRead(n);
    WideSizes(start, k);
    assert WideText(n)[..k] == WideText(k);
    assert |Encode(0x800)| == 3;
    assert !StepInInt(SizeAfter(start, WideText(n)[..k]), WideText(n)[k]);
  }

  /**
    The decoder's `int` arithmetic is safe for every table and every input of a length
    if and only if the length is at most 536,870,911.
   */
  lemma IntSufficesExactly(n: nat)
    ensures (forall e, input | TableValid(e) && |input| == n :: InInt(e, input)) <==> n <= SAFE_LENGTH
  {
    hide InInt, TableValid;
    if n <= SAFE_LENGTH {
      forall e, input | TableValid(e) && |input| == n ensures InInt(e, input) {
        SafeStaysInInt(e, input);
      }
    } else {
      LongOverflows(n);
      assert |HighBytes(n)| == n;
    }
  }
}
