/**
  Input in an encoding the parser does not know, transcoded to UTF-8 through the
  application's table and converter: a specification by recursion over the input,
  and the index loop over a growing output array proved against it.
 */
module UnknownEncodingDecoder {
  import opened Core
  import opened Utf8
  import opened ShellModel

  /**
    What the application's handler fills in: a table of 256 entries, a converter
    for multi-byte sequences (none for NULL), and whether it wants its data released.
   */
  datatype Encoding = Encoding(table: seq<int>, convert: Option<seq<byte> -> int>, hasRelease: bool)

  /** `xp_private_unknown_encoding_info_is_valid`, entry by entry. */
  predicate EntryValid(e: Encoding, i: int, code: int) {
    if i < 128 then code == i
    else if code == -1 then true
    else if -4 <= code <= -2 then e.convert.Some?
    else 128 <= code <= 0xffff
  }

  predicate TableValid(e: Encoding) {
    |e.table| == 256 && forall i :: 0 <= i < 256 ==> EntryValid(e, i, e.table[i])
  }

  /** What stands at the front of the input: a scalar and its length, or an error. */
  datatype Front = Character(c: scalar, length: nat) | Bad(error: XmlError)

  function FrontOf(e: Encoding, input: seq<byte>): (f: Front)
    requires TableValid(e) && input != []
    ensures f.Character? ==> 0 < f.length <= |input|
  {
    var code := e.table[input[0]];
    if code >= 0 then
      if 0xd800 <= code <= 0xdfff then Bad(InvalidToken)
      else assert EntryValid(e, input[0], code); Character(code, 1)
    else if code == -1 then Bad(InvalidToken)
    else
      assert EntryValid(e, input[0], code);
      if -code > |input| then Bad(PartialChar)
      else
        var c := e.convert.value(input[..-code]);
        if IsScalar(c) then Character(c, -code) else Bad(InvalidToken)
  }

  /** The application's `data`: the converter may use it until it has been released, which is once. */
  class HandlerData {
    var released: bool

    constructor ()
      ensures !released
    {
      released := false;
    }

    method Convert(e: Encoding, bytes: seq<byte>) returns (codepoint: int)
      requires e.convert.Some? && !released
      ensures codepoint == e.convert.value(bytes)
    {
      codepoint := e.convert.value(bytes);
    }

    method Release()
      requires !released
      modifies this
      ensures released
    {
      released := true;
    }
  }

  datatype Decoded = Scalars(cs: seq<scalar>) | Failed(error: XmlError)

  function Prepend(cs: seq<scalar>, d: Decoded): Decoded {
    match d
    case Scalars(ds) => Scalars(cs + ds)
    case Failed(_) => d
  }

  /** The scalars the input stands for, or the first error in it. */
  function Decode(e: Encoding, input: seq<byte>): Decoded
    requires TableValid(e)
    decreases |input|
  {
    if input == [] then Scalars([])
    else
      match FrontOf(e, input)
      case Bad(error) => Failed(error)
      case Character(c, n) => Prepend([c], Decode(e, input[n..]))
  }

  /** The scalars before the end of the input or the first error in it. */
  function Read(e: Encoding, input: seq<byte>): seq<scalar>
    requires TableValid(e)
    decreases |input|
  {
    if input == [] then []
    else
      match FrontOf(e, input)
      case Bad(_) => []
      case Character(c, n) => [c] + Read(e, input[n..])
  }

  // ---- the output array ------------------------------------------------------

  /** The `char *`, length and capacity that `xp_private_append_utf8` updates. */
  class Output {
    var data: array<byte>
    var length: nat
    var capacity: nat

    ghost predicate Valid()
      reads this, data
    {
      data.Length == capacity && length < capacity && data[length] == 0
    }

    /** The bytes before the terminating NUL. */
    ghost function Text(): seq<byte>
      requires Valid()
      reads this, data
    {
      data[..length]
    }

    constructor (capacity: nat)
      requires 0 < capacity
      ensures Valid() && Text() == [] && this.capacity == capacity && fresh(data)
    {
      data := new byte[capacity];
      length := 0;
      this.capacity := capacity;
      new;
      data[0] := 0;
    }

    /** `realloc` to a larger size: the old bytes come first in the new block. */
    method Enlarge(newCapacity: nat)
      requires Valid() && capacity <= newCapacity
      modifies this
      ensures Valid() && Text() == old(Text()) && length == old(length) && capacity == newCapacity && fresh(data)
    {
      var resized := new byte[newCapacity];
      forall i | 0 <= i < capacity {
        resized[i] := data[i];
      }
      data := resized;
      capacity := newCapacity;
    }

    /** Bytes are copied behind the text and the NUL after them. */
    method Write(bytes: seq<byte>)
      requires Valid() && length + |bytes| < capacity
      modifies this`length, data
      ensures Valid() && Text() == old(Text()) + bytes
    {
      forall i | 0 <= i < |bytes| {
        data[length + i] := bytes[i];
      }
      length := length + |bytes|;
      data[length] := 0;
    }

    /** `xp_private_append_utf8`; `reallocOk` answers the reallocation, if one is needed
        and so `asked` for. */
    method AppendUtf8(codepoint: int, reallocOk: bool) returns (ok: bool, asked: bool)
      requires Valid()
      modifies this, data
      ensures Valid() && (data == old(data) || fresh(data))
      ensures asked <==> IsScalar(codepoint) && !Fits(old(length), old(capacity), codepoint)
      ensures ok <==> IsScalar(codepoint) && (asked ==> reallocOk)
      ensures Text() == if ok then old(Text()) + Encode(codepoint) else old(Text())
      ensures capacity == if ok then CapacityAfter(old(length), old(capacity), codepoint) else old(capacity)
    {
      ok, asked := false, false;
      if !IsScalar(codepoint) {
        return;
      }
      var bytes := Encode(codepoint);
      var needed := length + |bytes| + 1;
      if needed > capacity {
        var newCapacity := capacity * 2;
        if newCapacity < needed {
          newCapacity := needed;
        }
        asked := true;
        if !reallocOk {
          return;
        }
        Enlarge(newCapacity);
      }
      Write(bytes);
      ok := true;
    }
  }

  predicate Fits(length: nat, capacity: nat, c: int)
    requires IsScalar(c)
  {
    length + |Encode(c)| + 1 <= capacity
  }

  function CapacityAfter(length: nat, capacity: nat, c: int): nat
    requires IsScalar(c)
  {
    if Fits(length, capacity, c) then capacity else Max(2 * capacity, length + |Encode(c)| + 1)
  }

  /** The text's length, the capacity of its array, and the allocations asked for so far. */
  datatype Size = Size(length: nat, capacity: nat, requests: nat)

  function Emitted(z: Size, c: scalar): Size {
    Size(z.length + |Encode(c)|, CapacityAfter(z.length, z.capacity, c),
         if Fits(z.length, z.capacity, c) then z.requests else z.requests + 1)
  }

  /** The sizes after a text, in an array that was allocated with capacity `start`. */
  function SizeAfter(start: nat, cs: seq<scalar>): Size {
    if cs == [] then Size(0, start, 1) else Emitted(SizeAfter(start, cs[..|cs| - 1]), cs[|cs| - 1])
  }

  /** The capacity the output of `length` input bytes is first allocated with. */
  function FirstCapacity(length: nat): nat {
    Max(16, 2 * length + 1)
  }

  /** How many allocations the input asks for, if all are granted. */
  function Requests(e: Encoding, input: seq<byte>): nat
    requires TableValid(e)
  {
    SizeAfter(FirstCapacity(|input|), Read(e, input)).requests
  }

  /** Are the first `n` allocations granted? */
  predicate Granted(allocations: nat -> bool, n: nat) {
    forall j: nat :: j < n ==> allocations(j)
  }

  /** `xp_private_unknown_encoding_info_is_valid`: two loops over the table. */
  method InfoIsValid(e: Encoding) returns (valid: bool, error: XmlError)
    requires |e.table| == 256
    ensures valid <==> TableValid(e)
    ensures error == if valid then NoError else UnknownEncoding
  {
    error := NoError;
    for i := 0 to 128
      invariant forall k :: 0 <= k < i ==> EntryValid(e, k, e.table[k])
    {
      if e.table[i] != i {
        assert !EntryValid(e, i, e.table[i]);
        return false, UnknownEncoding;
      }
    }
    for i := 128 to 256
      invariant forall k :: 0 <= k < i ==> EntryValid(e, k, e.table[k])
    {
      var code := e.table[i];
      if code == -1 {
        continue;
      }
      if -4 <= code <= -2 {
        if e.convert.None? {
          assert !EntryValid(e, i, e.table[i]);
          return false, UnknownEncoding;
        }
        continue;
      }
      if code < -4 || (0 <= code < 128) || code > 0xffff {
        assert !EntryValid(e, i, e.table[i]);
        return false, UnknownEncoding;
      }
    }
    valid := true;
  }

  // ---- the decoding loop --------------------------------------------------------

  /** `cs` has been read off the front of `input`, `rest` remains. */
  ghost predicate Progress(e: Encoding, input: seq<byte>, cs: seq<scalar>, rest: seq<byte>)
    requires TableValid(e)
  {
    Decode(e, input) == Prepend(cs, Decode(e, rest)) && Read(e, input) == cs + Read(e, rest)
  }

  lemma ProgressStarts(e: Encoding, input: seq<byte>)
    requires TableValid(e)
    ensures Progress(e, input, [], input)
  {
    hide Read;
    var d := Decode(e, input);
    assert d.Scalars? ==> [] + d.cs == d.cs;
  }

  lemma ProgressEnds(e: Encoding, input: seq<byte>, cs: seq<scalar>)
    requires TableValid(e) && Progress(e, input, cs, [])
    ensures Decode(e, input) == Scalars(cs) && Read(e, input) == cs
  {
    assert cs + [] == cs;
  }

  lemma ProgressOn(e: Encoding, input: seq<byte>, cs: seq<scalar>, rest: seq<byte>)
    requires TableValid(e) && Progress(e, input, cs, rest) && rest != []
    ensures var f := FrontOf(e, rest);
      if f.Bad? then Decode(e, input) == Failed(f.error) && Read(e, input) == cs
      else Progress(e, input, cs + [f.c], rest[f.length..]) && cs + [f.c] <= Read(e, input)
  {
    hide FrontOf, TableValid;
    var f := FrontOf(e, rest);
    if f.Character? {
      var d := Decode(e, rest[f.length..]);
      if d.Scalars? {
        assert cs + ([f.c] + d.cs) == (cs + [f.c]) + d.cs;
      }
      var more := Read(e, rest[f.length..]);
      assert cs + ([f.c] + more) == (cs + [f.c]) + more;
    }
  }

  lemma EncodeSnoc(cs: seq<scalar>, c: scalar)
    ensures EncodeAll(cs + [c]) == EncodeAll(cs) + Encode(c)
  {
    EncodeAllConcat(cs, [c]);
    assert EncodeAll([c]) == Encode(c) + EncodeAll([c][1..]);
    assert [c][1..] == [];
  }

  lemma SizeSnoc(start: nat, cs: seq<scalar>, c: scalar)
    ensures SizeAfter(start, cs + [c]) == Emitted(SizeAfter(start, cs), c)
  {
    hide Emitted;
    assert (cs + [c])[..|cs|] == cs;
  }

  /** Reading on never takes a request back. */
  lemma {:induction false} RequestsGrow(start: nat, cs: seq<scalar>, whole: seq<scalar>)
    requires cs <= whole
    ensures SizeAfter(start, cs).requests <= SizeAfter(start, whole).requests
    decreases |whole|
  {
    if |cs| < |whole| {
      RequestsGrow(start, cs, whole[..|whole| - 1]);
    } else {
      assert cs == whole;
    }
  }

  /**
    `xp_decode_unknown_encoding_input`. `answer` is what the handler fills in, or
    None when it refuses; `allocations` answers the allocations in the order they are
    asked for. `data` is what the handler's converter and release are called with.
   */
  method DecodeUnknownEncodingInput(
      hasHandler: bool, answer: Option<Encoding>, data: HandlerData, input: array?<byte>, length: int,
      allocations: nat -> bool)
    returns (decoded: Output?, decodedLength: int, errorCode: XmlError)
    requires answer.Some? ==> |answer.value.table| == 256
    requires input != null ==> length <= input.Length
    requires !data.released
    modifies data
    // Refusals.
    ensures decoded != null <==> errorCode == NoError
    ensures !Accepted(hasHandler, answer, input, length) ==> errorCode == UnknownEncoding
    // Memory: the result exactly when one of the allocations asked for fails.
    ensures Accepted(hasHandler, answer, input, length) ==>
      (errorCode == NoMemory <==> !Granted(allocations, Requests(answer.value, input[..length])))
    // Otherwise success and error are exactly the specification's.
    ensures Accepted(hasHandler, answer, input, length) && errorCode != NoMemory ==>
      match Decode(answer.value, input[..length])
      case Failed(error) => errorCode == error
      case Scalars(cs) =>
        && decoded != null && fresh(decoded) && decoded.Valid()
        && decoded.Text() == EncodeAll(cs) && decodedLength == decoded.length
        && decoded.capacity == SizeAfter(FirstCapacity(length), cs).capacity
    ensures decoded == null ==> decodedLength == 0
    // The data is released if and only if it was handed over for that; never twice, nor used afterwards.
    ensures data.released <==> Asked(hasHandler, answer, input, length) && answer.value.hasRelease
  {
    hide TableValid, Requests, Decode, EncodeAll, SizeAfter;
    decoded, decodedLength, errorCode := null, 0, NoError;
    if !hasHandler || input == null || length < 0 {
      return null, 0, UnknownEncoding;
    }
    if answer.None? {
      return null, 0, UnknownEncoding;
    }
    var e := answer.value;
    var valid, problem := InfoIsValid(e);
    if !valid {
      if e.hasRelease {
        data.Release();
      }
      return null, 0, problem;
    }
    var capacity := length * 2 + 1;
    if capacity < 16 {
      capacity := 16;
    }
    FirstIsRequested(e, input[..length]);
    if !allocations(0) {
      if e.hasRelease {
        data.Release();
      }
      return null, 0, NoMemory;
    }
    var output := new Output(capacity);
    var ok: bool;
    ok, errorCode := DecodeLoop(e, data, input, length, output, allocations);
    if e.hasRelease {
      data.Release();
    }
    if ok {
      decoded, decodedLength := output, output.length;
    }
  }

  /** Did the handler fill in an answer, with arguments that are usable? */
  predicate Asked(hasHandler: bool, answer: Option<Encoding>, input: array?<byte>, length: int) {
    hasHandler && input != null && length >= 0 && answer.Some?
  }

  /** And was its table valid? */
  predicate Accepted(hasHandler: bool, answer: Option<Encoding>, input: array?<byte>, length: int) {
    Asked(hasHandler, answer, input, length) && TableValid(answer.value)
  }

  lemma FirstIsRequested(e: Encoding, input: seq<byte>)
    requires TableValid(e)
    ensures Requests(e, input) >= 1
  {
    RequestsGrow(FirstCapacity(|input|), [], Read(e, input));
  }

  /** The loop over the input, after the first allocation. */
  method DecodeLoop(e: Encoding, data: HandlerData, input: array<byte>, length: nat, output: Output,
                    allocations: nat -> bool)
    returns (ok: bool, errorCode: XmlError)
    requires !data.released
    requires TableValid(e) && length <= input.Length
    requires output.Valid() && output.Text() == [] && output.data != input
    requires output.capacity == FirstCapacity(length) && allocations(0)
    modifies output, output.data
    ensures output.Valid()
    ensures ok <==> errorCode == NoError
    ensures errorCode == NoMemory <==> !Granted(allocations, Requests(e, input[..length]))
    ensures errorCode != NoMemory ==>
      match Decode(e, input[..length])
      case Failed(error) => errorCode == error
      case Scalars(cs) =>
        && ok && output.Text() == EncodeAll(cs)
        && output.capacity == SizeAfter(FirstCapacity(length), cs).capacity
  {
    hide Encode, EncodeAll, Decode, FrontOf, TableValid, Progress, SizeAfter, Emitted, Output.Valid, Requests, Granted;
    ghost var all := input[..length];
    ghost var cs: seq<scalar> := [];
    Start(e, all, output, allocations);
    assert all[0..] == all;
    var i, k := 0, 1;
    ok, errorCode := true, NoError;
    while i < length && ok
      invariant 0 <= i <= length && input[..length] == all
      invariant output.Valid() && (output.data == old(output.data) || fresh(output.data))
      invariant ok ==> errorCode == NoError && Progress(e, all, cs, all[i..]) && Granted(allocations, k)
      invariant ok ==> Holds(output, cs, FirstCapacity(length), k)
      invariant !ok ==> errorCode != NoError && Ends(e, all, allocations, errorCode)
      decreases length - i, ok
    {
      var front := FrontAt(e, data, input, i, length);
      ProgressOn(e, all, cs, all[i..]);
      if front.Bad? {
        errorCode := front.error;
        ok := false;
        EndsBad(e, all, cs, allocations, errorCode, k);
      } else {
        assert all[i..][front.length..] == all[i + front.length..];
        var asked: bool;
        ok, asked := EmitFront(cs, front.c, output, allocations(k), FirstCapacity(length), k);
        cs := cs + [front.c];
        GrantedOn(allocations, k);
        if ok {
          k := if asked then k + 1 else k;
        } else {
          errorCode := NoMemory;
          EndsRefused(e, all, cs, allocations, k);
        }
        i := i + front.length;
      }
    }
    if ok {
      assert all[i..] == [];
      ProgressEnds(e, all, cs);
      EndsWell(e, all, cs, allocations, k);
    }
  }

  /** The output holds the text of `cs`, its sizes are as specified, and `k` allocations were asked for. */
  ghost predicate Holds(output: Output, cs: seq<scalar>, start: nat, k: nat)
    requires output.Valid()
    reads output, output.data
  {
    output.Text() == EncodeAll(cs) && Size(output.length, output.capacity, k) == SizeAfter(start, cs)
  }

  /** The loop ends with an error, as specified. */
  ghost predicate Ends(e: Encoding, input: seq<byte>, allocations: nat -> bool, errorCode: XmlError)
    requires TableValid(e)
  {
    && (errorCode == NoMemory <==> !Granted(allocations, Requests(e, input)))
    && (errorCode != NoMemory ==> Decode(e, input) == Failed(errorCode))
  }

  lemma Start(e: Encoding, input: seq<byte>, output: Output, allocations: nat -> bool)
    requires TableValid(e) && output.Valid() && output.Text() == [] && allocations(0)
    ensures Holds(output, [], output.capacity, 1) && Granted(allocations, 1) && Progress(e, input, [], input)
  {
    ProgressStarts(e, input);
  }

  lemma EndsBad(e: Encoding, input: seq<byte>, cs: seq<scalar>, allocations: nat -> bool, error: XmlError, k: nat)
    requires TableValid(e) && Decode(e, input) == Failed(error) && Read(e, input) == cs && error != NoMemory
    requires Granted(allocations, k) && SizeAfter(FirstCapacity(|input|), cs).requests == k
    ensures Ends(e, input, allocations, error)
  {}

  lemma EndsRefused(e: Encoding, input: seq<byte>, cs: seq<scalar>, allocations: nat -> bool, k: nat)
    requires TableValid(e) && cs <= Read(e, input) && !allocations(k)
    requires SizeAfter(FirstCapacity(|input|), cs).requests == k + 1
    ensures Ends(e, input, allocations, NoMemory)
  {
    RequestsGrow(FirstCapacity(|input|), cs, Read(e, input));
  }

  lemma EndsWell(e: Encoding, input: seq<byte>, cs: seq<scalar>, allocations: nat -> bool, k: nat)
    requires TableValid(e) && Read(e, input) == cs && Granted(allocations, k)
    requires SizeAfter(FirstCapacity(|input|), cs).requests == k
    ensures Granted(allocations, Requests(e, input))
  {}

  lemma GrantedOn(allocations: nat -> bool, k: nat)
    requires Granted(allocations, k)
    ensures allocations(k) ==> Granted(allocations, k + 1)
  {}

  /** The character of one turn goes to the output. */
  method EmitFront(ghost cs: seq<scalar>, c: scalar, output: Output, reallocOk: bool, ghost start: nat, ghost k: nat)
    returns (ok: bool, asked: bool)
    requires output.Valid() && Holds(output, cs, start, k)
    modifies output, output.data
    ensures output.Valid() && (output.data == old(output.data) || fresh(output.data))
    ensures ok ==> Holds(output, cs + [c], start, if asked then k + 1 else k) && (asked ==> reallocOk)
    ensures !ok ==> asked && !reallocOk && SizeAfter(start, cs + [c]).requests == k + 1
  {
    hide Encode, Fits, CapacityAfter;
    SizeSnoc(start, cs, c);
    EncodeSnoc(cs, c);
    ok, asked := output.AppendUtf8(c, reallocOk);
  }

  /** One table lookup and, for a multi-byte lead, the bounds check and the converter. */
  method FrontAt(e: Encoding, data: HandlerData, input: array<byte>, i: nat, length: nat) returns (front: Front)
    requires !data.released
    requires TableValid(e) && i < length <= input.Length
    ensures front == FrontOf(e, input[..length][i..])
    ensures front.Bad? ==> front.error != NoError && front.error != NoMemory
  {
    ghost var rest := input[..length][i..];
    var code := e.table[input[i]];
    assert EntryValid(e, input[i], code);
    if code >= 0 {
      if 0xd800 <= code <= 0xdfff {
        front := Bad(InvalidToken);
      } else {
        front := Character(code, 1);
      }
    } else if code == -1 {
      front := Bad(InvalidToken);
    } else if -4 <= code <= -2 {
      var sequenceLength := -code;
      if i + sequenceLength > length {
        front := Bad(PartialChar);
      } else {
        assert rest[..sequenceLength] == input[i..i + sequenceLength];
        var codepoint := data.Convert(e, input[i..i + sequenceLength]);
        if codepoint < 0 || codepoint > 0x10ffff || (0xd800 <= codepoint <= 0xdfff) {
          front := Bad(InvalidToken);
        } else {
          front := Character(codepoint, sequenceLength);
        }
      }
    } else {
      assert false;  // the table has no entry below -4
    }
  }

  // ---- one character ------------------------------------------------------------------

  /** A byte with an entry of its own stands for that scalar; a surrogate entry, or none, is an error. */
  lemma SingleByteExactly(e: Encoding, input: seq<byte>)
    requires TableValid(e) && input != [] && e.table[input[0]] >= -1
    ensures var code := e.table[input[0]];
      && (code == -1 || 0xd800 <= code <= 0xdfff ==> Decode(e, input) == Failed(InvalidToken))
      && (code >= 0 && !(0xd800 <= code <= 0xdfff) && |input| == 1 ==>
            IsScalar(code) && Decode(e, input) == Scalars([code]))
  {
    assert EntryValid(e, input[0], e.table[input[0]]);
    if |input| == 1 {
      assert input[1..] == [];
      assert Decode(e, input[1..]) == Scalars([]);
    }
  }

  /**
    A lead byte announcing n bytes stands, with exactly these n bytes, for what the converter
    makes of all of them, if that is a scalar; with fewer the input ends inside a character.
   */
  lemma SequenceExactly(e: Encoding, input: seq<byte>, n: int)
    requires TableValid(e) && input != [] && e.table[input[0]] == -n && 2 <= n <= 4
    ensures e.convert.Some?
    ensures |input| < n ==> Decode(e, input) == Failed(PartialChar)
    ensures |input| >= n ==>
      var c := e.convert.value(input[..n]);
      && (!IsScalar(c) ==> Decode(e, input) == Failed(InvalidToken))
      && (IsScalar(c) && |input| == n ==> Decode(e, input) == Scalars([c]))
  {
    assert EntryValid(e, input[0], e.table[input[0]]);
    if |input| == n {
      assert input[n..] == [];
      assert Decode(e, input[n..]) == Scalars([]);
    }
  }

  /** The tables accepted, entry by entry. */
  lemma ValidTables(e: Encoding)
    requires |e.table| == 256
    ensures TableValid(e) <==>
      && (forall i :: 0 <= i < 128 ==> e.table[i] == i)
      && (forall i :: 128 <= i < 256 ==> -4 <= e.table[i] <= 0xffff && !(0 <= e.table[i] < 128))
      && (e.convert.None? ==> forall i :: 128 <= i < 256 ==> e.table[i] >= -1)
  {
    if TableValid(e) {
      forall i | 0 <= i < 256 ensures EntryValid(e, i, e.table[i]) {}
    }
  }

  // ---- composition ----------------------------------------------------------------

  /**
    Decoding is compositional: input that decodes, followed by any other input, decodes
    to its own scalars followed by what the rest decodes to, or fails as the rest does.
   */
  lemma {:induction false} DecodeConcat(e: Encoding, a: seq<byte>, b: seq<byte>)
    requires TableValid(e) && Decode(e, a).Scalars?
    ensures Decode(e, a + b) == Prepend(Decode(e, a).cs, Decode(e, b))
    decreases |a|
  {
    if a == [] {
      assert a + b == b;
      assert Decode(e, b).Scalars? ==> [] + Decode(e, b).cs == Decode(e, b).cs;
    } else {
      var f := FrontOf(e, a);
      assert EntryValid(e, a[0], e.table[a[0]]);
      assert e.table[a[0]] < 0 && f.Character? ==> (a + b)[..f.length] == a[..f.length];
      assert FrontOf(e, a + b) == f;
      assert (a + b)[f.length..] == a[f.length..] + b;
      DecodeConcat(e, a[f.length..], b);
      PrependTwice([f.c], Decode(e, a[f.length..]).cs, Decode(e, b));
    }
  }

  lemma PrependTwice(a: seq<scalar>, b: seq<scalar>, d: Decoded)
    ensures Prepend(a, Prepend(b, d)) == Prepend(a + b, d)
  {
    if d.Scalars? {
      assert a + (b + d.cs) == (a + b) + d.cs;
    }
  }

  /** Every valid table leaves ASCII alone: the text comes out byte for byte. */
  lemma {:induction false} AsciiIsItself(e: Encoding, input: seq<byte>)
    requires TableValid(e) && forall i :: 0 <= i < |input| ==> input[i] < 128
    ensures Decode(e, input).Scalars? && EncodeAll(Decode(e, input).cs) == input
    decreases |input|
  {
    if input != [] {
      assert EntryValid(e, input[0], e.table[input[0]]);
      AsciiIsItself(e, input[1..]);
      var cs := Decode(e, input[1..]).cs;
      assert ([input[0] as scalar] + cs)[1..] == cs;
    }
  }

  /** The output is well-formed UTF-8 and decodes back to the scalars of the input. */
  lemma OutputIsWellFormed(e: Encoding, input: seq<byte>)
    requires TableValid(e) && Decode(e, input).Scalars?
    ensures DecodeAll(EncodeAll(Decode(e, input).cs)) == Some(Decode(e, input).cs)
  {
    DecodeEncoded(Decode(e, input).cs);
  }
}
