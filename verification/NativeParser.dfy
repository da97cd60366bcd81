/**
  The native parser shell in the form the C code has: one mutable object over a
  reallocated input buffer, `int` arithmetic that must not overflow, and input
  pointers that may point into the buffer itself. Every entry point is proved
  equal to its function in ShellModel.dfy.
 */
module NativeParser {
  import opened Core
  import M = ShellModel

  /** `memmove`: the source range is read in full before anything is written. */
  method MemMove(dst: array<byte>, dstOff: nat, src: array<byte>, srcOff: nat, n: nat)
    requires dstOff + n <= dst.Length && srcOff + n <= src.Length
    modifies dst
    ensures dst[dstOff..dstOff + n] == old(src[srcOff..srcOff + n])
    ensures dst[..dstOff] == old(dst[..dstOff])
    ensures dst[dstOff + n..] == old(dst[dstOff + n..])
  {
    forall i | 0 <= i < n {
      dst[dstOff + i] := src[srcOff + i];
    }
  }

  /** The `n` bytes a caller's pointer designates; nothing for a NULL pointer. */
  ghost function Region(src: array?<byte>, off: nat, n: int): seq<byte>
    requires src != null && n > 0 ==> off + n <= src.Length
    reads src
  {
    if src == null || n <= 0 then [] else src[off..off + n]
  }

  class Parser {
    const hasBridge: bool
    const parentParser: Parser?
    var externalEntityIsParameter: bool
    var externalEntityIsParameterLiteral: bool
    /** Set by the bridge before a callback asks for a child. */
    var nextExternalEntityIsParameter: bool
    var nextExternalEntityIsParameterLiteral: bool
    var externalChildParseCount: int
    var buffer: array?<byte>
    var bufferCapacity: int32
    var bufferLength: int32
    var parsing: M.Phase
    var errorCode: M.XmlError
    var parseErrorCode: M.XmlError
    var finalBuffer: bool
    var stopRequested: bool
    var stopResumable: bool
    /** This parser as a value of the model; `Valid` ties every field to it. */
    ghost var shell: M.Shell

    ghost predicate Valid()
      reads this, buffer
    {
      && BufferValid()
      && shell.window == Window()
      && shell.capacity == bufferCapacity as int
      && Tied()
    }

    /** Every field outside the input buffer agrees with the model value. */
    ghost predicate Tied()
      reads this
    {
      && shell.attached == hasBridge
      && shell.hasParent == (parentParser != null)
      && shell.isParameter == externalEntityIsParameter
      && shell.life == LifeNow()
    }

    /** The lifecycle fields as a value. */
    ghost function LifeNow(): M.Life
      reads this`parsing, this`errorCode, this`parseErrorCode, this`finalBuffer, this`stopRequested, this`stopResumable
    {
      M.Life(parsing, errorCode, parseErrorCode, finalBuffer, stopRequested, stopResumable)
    }

    ghost predicate BufferValid()
      reads this`buffer, this`bufferLength, this`bufferCapacity, buffer
    {
      && 0 <= bufferLength <= bufferCapacity
      && bufferLength as int <= M.MAXIMUM_CAPACITY
      && (buffer == null <==> bufferCapacity == 0)
      && (buffer != null ==> buffer.Length == bufferCapacity as int)
    }

    /** The retained bytes: the first `bufferLength` of the buffer. */
    ghost function Window(): (w: seq<byte>)
      requires BufferValid()
      reads this`buffer, this`bufferLength, this`bufferCapacity, buffer
      ensures |w| == bufferLength as int
    {
      if buffer == null then [] else buffer[..bufferLength]
    }

    ghost function Parents(): set<Parser> {
      if parentParser == null then {} else {parentParser}
    }

    ghost function ParentCount(): int
      reads Parents()`externalChildParseCount
    {
      if parentParser == null then 0 else parentParser.externalChildParseCount
    }

    /** The parent's count of finished children went from `before` up by one, or not. */
    ghost predicate ParentCredited(before: int, credited: bool)
      reads Parents()`externalChildParseCount
    {
      parentParser != null ==> ParentCount() == before + (if credited then 1 else 0)
    }

    /** `XML_ParserCreate_MM`, after its own allocations have succeeded. */
    constructor (hasBridge: bool)
      ensures Valid() && buffer == null && externalChildParseCount == 0
      ensures shell == M.Create(hasBridge)
    {
      this.hasBridge := hasBridge;
      parentParser, externalEntityIsParameter, externalChildParseCount := null, false, 0;
      externalEntityIsParameterLiteral := false;
      nextExternalEntityIsParameter, nextExternalEntityIsParameterLiteral := false, false;
      buffer, bufferCapacity, bufferLength := null, 0, 0;
      parsing, parseErrorCode := M.Initialized, M.NoError;
      errorCode := if hasBridge then M.NoError else M.NotStarted;
      finalBuffer, stopRequested, stopResumable := false, false, false;
      shell := M.Create(hasBridge);
    }

    /** The parser `XML_ExternalEntityParserCreate` makes for `parent`. */
    constructor Child(parent: Parser, hasBridge: bool, isParameter: bool, isLiteral: bool)
      ensures Valid() && buffer == null && externalChildParseCount == 0
      ensures externalEntityIsParameterLiteral == isLiteral
      ensures !nextExternalEntityIsParameter && !nextExternalEntityIsParameterLiteral
      ensures parentParser == parent && shell == M.CreateChild(hasBridge, isParameter)
    {
      this.hasBridge := hasBridge;
      parentParser, externalEntityIsParameter, externalChildParseCount := parent, isParameter, 0;
      externalEntityIsParameterLiteral := isLiteral;
      nextExternalEntityIsParameter, nextExternalEntityIsParameterLiteral := false, false;
      buffer, bufferCapacity, bufferLength := null, 0, 0;
      parsing, parseErrorCode := M.Initialized, M.NoError;
      errorCode := if hasBridge then M.NoError else M.NotStarted;
      finalBuffer, stopRequested, stopResumable := false, false, false;
      shell := M.CreateChild(hasBridge, isParameter);
    }

    /** `xp_set_error`. */
    method SetError(code: M.XmlError)
      requires Valid()
      modifies this`errorCode, this`shell
      ensures Valid() && shell == old(shell).Failing(code)
    {
      errorCode := code;
      shell := shell.Failing(code);
    }

    /** The capacity loop; `capacity *= 2` stays inside `int`. */
    method GrowCapacity(start: int32, required: int32) returns (capacity: int32)
      requires 0 < start && required as int <= M.MAXIMUM_CAPACITY
      ensures capacity as int == M.Grown(start as int, required as int)
    {
      capacity := start;
      while capacity < required
        invariant 0 < capacity
        invariant M.Grown(capacity as int, required as int) == M.Grown(start as int, required as int)
        decreases required as int - capacity as int
      {
        capacity := capacity * 2;
      }
    }

    /** The path of `xp_input_buffer` that moves to a new allocation. */
    method Reallocate(capacity: int32, src: array?<byte>, off: nat, len: nat)
      requires BufferValid()
      requires bufferLength as int + len <= capacity as int
      requires 0 < capacity
      requires len > 0 ==> src != null && off + len <= src.Length
      modifies this`buffer, this`bufferCapacity
      ensures BufferValid() && buffer != null && fresh(buffer) && bufferCapacity == capacity
      ensures buffer[..bufferLength as int + len] == old(Window()) + old(Region(src, off, len))
    {
      var resized := new byte[capacity as int];
      var length := bufferLength as int;
      if bufferLength > 0 {
        MemMove(resized, 0, buffer, 0, length);
      }
      assert resized[..length] == Window();
      if len > 0 {
        MemMove(resized, length, src, off, len);
      }
      assert resized[..length + len] == resized[..length] + resized[length..length + len];
      buffer := resized;
      bufferCapacity := capacity;
    }

    /** The path of `xp_input_buffer` that appends where there is room. */
    method AppendInPlace(src: array?<byte>, off: nat, len: nat)
      requires BufferValid() && buffer != null
      requires bufferLength as int + len <= bufferCapacity as int
      requires len > 0 ==> src != null && off + len <= src.Length
      modifies buffer
      ensures buffer[..bufferLength as int + len] == old(Window()) + old(Region(src, off, len))
    {
      var length := bufferLength as int;
      if len > 0 {
        MemMove(buffer, length, src, off, len);
      }
      assert buffer[..length + len] == buffer[..length] + buffer[length..length + len];
    }

    /** The two paths of `xp_input_buffer`, once `required` is known to be in range. */
    method MakeRoom(required: int32, src: array?<byte>, off: nat, len: nat, mallocOk: bool) returns (ok: bool)
      requires BufferValid()
      requires bufferLength as int + len <= required as int <= M.MAXIMUM_CAPACITY
      requires len > 0 ==> src != null && off + len <= src.Length
      modifies this`buffer, this`bufferCapacity, buffer
      ensures BufferValid() && (buffer == old(buffer) || fresh(buffer))
      ensures ok == (M.NeedsAllocation(old(bufferCapacity) as int, required as int) ==> mallocOk)
      ensures !ok ==> buffer == old(buffer) && bufferCapacity == old(bufferCapacity) && Window() == old(Window())
      ensures ok ==> buffer != null && required <= bufferCapacity
      ensures ok ==> bufferCapacity as int == M.CapacityFor(old(bufferCapacity) as int, required as int)
      ensures ok ==> buffer[..bufferLength as int + len] == old(Window()) + old(Region(src, off, len))
    {
      ok := true;
      if buffer == null || required > bufferCapacity {
        var capacity := GrowCapacity(if bufferCapacity > 0 then bufferCapacity else 1024, required);
        if !mallocOk {
          return false;
        }
        Reallocate(capacity, src, off, len);
      } else {
        AppendInPlace(src, off, len);
      }
    }

    /** The first `length` bytes of the buffer become the window. */
    method Adopt(length: int32, ghost input: seq<byte>)
      requires BufferValid() && buffer != null && Tied()
      requires 0 <= length <= bufferCapacity && length as int <= M.MAXIMUM_CAPACITY
      requires buffer[..length] == shell.window + input
      modifies this`bufferLength, this`shell
      ensures Valid()
      ensures shell == old(shell).(window := old(shell.window) + input, capacity := bufferCapacity as int)
    {
      bufferLength := length;
      shell := shell.(window := shell.window + input, capacity := bufferCapacity as int);
    }

    /**
      `xp_input_buffer`. With `commit`, the bytes at `src[off..]` (which may lie in
      the buffer itself) are appended; without, the room behind the window is
      only made available. `dest` is the offset of the appended range.
     */
    method InputBuffer(len: int32, src: array?<byte>, off: nat, commit: bool, mallocOk: bool)
      returns (ok: bool, dest: int32)
      requires Valid()
      requires commit && len > 0 ==> src != null && off + len as int <= src.Length
      modifies this`buffer, this`bufferCapacity, this`bufferLength, this`errorCode, this`shell, buffer
      ensures Valid() && (buffer == old(buffer) || fresh(buffer))
      ensures (shell, ok)
        == M.Commit(old(shell), len as int, if commit then old(Region(src, off, len as int)) else [], mallocOk)
      ensures ok ==> buffer != null && dest == old(bufferLength) && 0 <= len
      ensures ok ==> dest as int + len as int <= bufferCapacity as int
    {
      ok, dest := false, bufferLength;
      if len < 0 || len > 0x4000_0000 - bufferLength {
        SetError(M.NoMemory);
      } else {
        ok := Extend(len, if commit then len as int else 0, src, off, mallocOk);
      }
    }

    /** The rest of `xp_input_buffer`: room for `len` bytes, of which `moved` are appended. */
    method Extend(len: int32, moved: nat, src: array?<byte>, off: nat, mallocOk: bool) returns (ok: bool)
      requires Valid() && 0 <= len && len as int <= M.MAXIMUM_CAPACITY - bufferLength as int
      requires moved == 0 || moved == len as int
      requires moved > 0 ==> src != null && off + moved <= src.Length
      modifies this`buffer, this`bufferCapacity, this`bufferLength, this`errorCode, this`shell, buffer
      ensures Valid() && (buffer == old(buffer) || fresh(buffer))
      ensures (shell, ok) == M.Commit(old(shell), len as int, old(Region(src, off, moved)), mallocOk)
      ensures ok ==> buffer != null && old(bufferLength) as int + len as int <= bufferCapacity as int
    {
      hide M.CapacityFor, M.NeedsAllocation, M.Commit, Valid;
      ghost var before, input := shell, Region(src, off, moved);
      Sizes();
      CommitBranches(before, len as int, input, mallocOk);
      ok := Room(len, moved, src, off, mallocOk);
      if ok {
        Adopt(bufferLength + moved as int32, input);
      } else {
        SetError(M.NoMemory);
      }
    }

    lemma Sizes()
      requires Valid()
      ensures |shell.window| == bufferLength as int && shell.capacity == bufferCapacity as int
    {}

    /** The two branches of a commit in range. */
    lemma CommitBranches(s: M.Shell, len: int, input: seq<byte>, mallocOk: bool)
      requires 0 <= len && len <= M.MAXIMUM_CAPACITY - |s.window|
      ensures M.Commit(s, len, input, mallocOk) ==
        if M.NeedsAllocation(s.capacity, |s.window| + len) ==> mallocOk
        then (s.(window := s.window + input, capacity := M.CapacityFor(s.capacity, |s.window| + len)), true)
        else (s.Failing(M.NoMemory), false)
    {
      hide M.CapacityFor, M.NeedsAllocation;
    }

    /** Room is made, and nothing of it is taken over yet. */
    method Room(len: int32, moved: nat, src: array?<byte>, off: nat, mallocOk: bool) returns (ok: bool)
      requires Valid() && 0 <= len && len as int <= M.MAXIMUM_CAPACITY - bufferLength as int
      requires moved <= len as int && (moved > 0 ==> src != null && off + moved <= src.Length)
      modifies this`buffer, this`bufferCapacity, buffer
      ensures BufferValid() && Tied() && (buffer == old(buffer) || fresh(buffer))
      ensures |shell.window| == bufferLength as int
      ensures ok == (M.NeedsAllocation(shell.capacity, |shell.window| + len as int) ==> mallocOk)
      ensures !ok ==> Valid()
      ensures ok ==> buffer != null && bufferLength as int + len as int <= bufferCapacity as int
      ensures ok ==> bufferCapacity as int == M.CapacityFor(shell.capacity, |shell.window| + len as int)
      ensures ok ==> buffer[..bufferLength as int + moved] == shell.window + old(Region(src, off, moved))
    {
      hide M.CapacityFor, M.NeedsAllocation;
      ok := MakeRoom(bufferLength + len, src, off, moved, mallocOk);
    }

    /** The last `keep` retained bytes move to the front and become the window. */
    method SlideDown(keep: int32)
      requires Valid() && buffer != null && 0 <= keep <= bufferLength
      modifies this`bufferLength, this`shell, buffer
      ensures Valid() && shell == old(shell).(window := Last(old(shell.window), keep as nat))
    {
      ghost var kept := Last(shell.window, keep as nat);
      MemMove(buffer, 0, buffer, (bufferLength - keep) as int, keep as int);
      assert buffer[..keep] == kept;
      bufferLength := keep;
      shell := shell.(window := kept);
    }

    /** `xp_consume_input_prefix`. */
    method ConsumeInputPrefix(pendingBytes: int32)
      requires Valid()
      modifies this`bufferLength, this`shell, buffer
      ensures Valid() && shell == M.ConsumePrefix(old(shell), pendingBytes as int)
    {
      if buffer == null || pendingBytes < 0 || pendingBytes > bufferLength {
        return;
      }
      var consumed := bufferLength - pendingBytes;
      var keep := (if consumed < 1024 then consumed else 1024) + pendingBytes;
      if keep < bufferLength {
        SlideDown(keep);
      }
    }

    /** A stop request is taken: flags, state and error code. */
    method AcceptStop(resumable: bool, phase: M.Phase, code: M.XmlError)
      requires Valid()
      modifies this`errorCode, this`stopRequested, this`stopResumable, this`parsing, this`shell
      ensures Valid()
      ensures shell == old(shell).(life := old(shell.life).(
        stopRequested := true, stopResumable := resumable, phase := phase, error := code))
    {
      stopRequested, stopResumable := true, resumable;
      parsing := phase;
      errorCode := code;
      shell := shell.(life := LifeNow());
    }

    /** `XML_StopParser`. */
    method StopParser(resumable: bool) returns (status: M.Status)
      requires Valid()
      modifies this`errorCode, this`stopRequested, this`stopResumable, this`parsing, this`shell
      ensures Valid() && (shell, status) == M.StopParser(old(shell), resumable)
    {
      status := M.StatusError;
      if parsing == M.Initialized {
        SetError(M.NotStarted);
      } else if parsing == M.Finished {
        SetError(M.ErrFinished);
      } else if parsing == M.Suspended {
        if resumable {
          SetError(M.ErrSuspended);
        } else {
          AcceptStop(false, M.Finished, M.Aborted);
          status := M.StatusOk;
        }
      } else if stopRequested && !stopResumable {
        SetError(M.ErrFinished);
      } else if stopRequested && stopResumable && resumable {
        SetError(M.ErrSuspended);
      } else if resumable && externalEntityIsParameter {
        SetError(M.SuspendPe);
      } else {
        AcceptStop(resumable, if resumable then M.Suspended else M.Finished,
                   if resumable then M.NoError else M.Aborted);
        status := M.StatusOk;
      }
    }

    /** Are all numbers in the environment's reply C `int`s? */
    static predicate ReplyFits(reply: M.Reply) {
      forall a :: a in reply.actions && a.Consume? ==> -0x8000_0000 <= a.pending < 0x8000_0000
    }

    /** What one callback does to this parser; a child it asks for is handed to the callback. */
    method RunCallback(action: M.Action)
      requires Valid()
      requires action.Consume? ==> -0x8000_0000 <= action.pending < 0x8000_0000
      modifies this`errorCode, this`stopRequested, this`stopResumable, this`parsing, this`bufferLength, this`shell
      modifies this`nextExternalEntityIsParameter, this`nextExternalEntityIsParameterLiteral, buffer
      ensures Valid() && shell == M.Act(old(shell), action)
    {
      hide M.StopParser, M.ConsumePrefix, M.ChildRequested;
      match action
      case Stop(resumable) => var _ := StopParser(resumable);
      case Consume(pending) => ConsumeInputPrefix(pending as int32);
      case AskChild(created, configured) =>
        var _ := ExternalEntityParserCreate(true, true, created, configured, true, true, true);
    }

    /** The callbacks of one bridge call, acting on this parser. */
    method RunCallbacks(reply: M.Reply)
      requires Valid() && ReplyFits(reply)
      modifies this`errorCode, this`stopRequested, this`stopResumable, this`parsing, this`bufferLength, this`shell
      modifies this`nextExternalEntityIsParameter, this`nextExternalEntityIsParameterLiteral, buffer
      ensures Valid() && shell == M.ActAll(old(shell), reply.actions)
    {
      hide M.Act, Valid;
      var actions := reply.actions;
      for i := 0 to |actions|
        invariant Valid() && shell == M.ActAll(old(shell), actions[..i])
      {
        assert actions[..i + 1][..i] == actions[..i];
        RunCallback(actions[i]);
      }
      assert actions[..|actions|] == actions;
    }

    /** The `len` bytes at offset `dest` of the buffer. */
    ghost function Slice(dest: int32, len: int32): (s: seq<byte>)
      requires BufferValid()
      requires 0 <= dest && 0 <= len && dest as int + len as int <= bufferCapacity as int
      reads this`buffer, this`bufferLength, this`bufferCapacity, buffer
      ensures |s| == len as int
    {
      if len == 0 then [] else buffer[dest..dest as int + len as int]
    }

    /**
      `bridge->parse` on the `len` bytes at offset `dest` of the buffer: the bytes
      that lie there when the call is made are the ones that reach the bridge.
     */
    method BridgeParse(dest: int32, len: int32, isFinal: bool, reply: M.Reply) returns (status: M.Status)
      requires Valid() && ReplyFits(reply)
      requires 0 <= dest && 0 <= len && dest as int + len as int <= bufferCapacity as int
      modifies this`errorCode, this`stopRequested, this`stopResumable, this`parsing, this`bufferLength, this`shell
      modifies this`nextExternalEntityIsParameter, this`nextExternalEntityIsParameterLiteral, buffer
      ensures Valid() && status == reply.status
      ensures shell == M.ActAll(M.Logged(old(shell), old(Slice(dest, len)), isFinal), reply.actions)
    {
      shell := M.Logged(shell, Slice(dest, len), isFinal);
      RunCallbacks(reply);
      status := reply.status;
    }

    /** `xp_finish_external_child_parse`. */
    method FinishExternalChildParse(status: M.Status, len: int32, isFinal: bool, reply: M.Reply)
      returns (result: M.Status, credited: bool)
      requires Valid()
      modifies this`errorCode, this`shell, Parents()`externalChildParseCount
      ensures Valid() && (shell, result, credited) == M.FinishChild(old(shell), status, len as int, isFinal, reply)
      ensures ParentCredited(old(ParentCount()), credited)
    {
      shell := M.FinishChild(shell, status, len as int, isFinal, reply).0;
      result, credited := status, false;
      if parentParser != null && status == M.StatusOk && isFinal && len > 0 {
        if !reply.mergeOk {
          errorCode := M.ExternalEntityHandling;
          return M.StatusError, false;
        }
        if externalEntityIsParameter && !reply.contextOk {
          errorCode := M.ExternalEntityHandling;
          return M.StatusError, false;
        }
        parentParser.externalChildParseCount := parentParser.externalChildParseCount + 1;
        credited := true;
      }
    }

    method RecordParseError(code: M.XmlError)
      requires Valid()
      modifies this`errorCode, this`parseErrorCode, this`shell
      ensures Valid() && shell == old(shell).(life := old(shell.life).(parseError := code, error := code))
    {
      parseErrorCode := code;
      errorCode := code;
      shell := shell.(life := LifeNow());
    }

    method Conclude(phase: M.Phase, code: M.XmlError)
      requires Valid()
      modifies this`errorCode, this`parsing, this`shell
      ensures Valid() && shell == old(shell).(life := old(shell.life).(phase := phase, error := code))
    {
      errorCode := code;
      parsing := phase;
      shell := shell.(life := LifeNow());
    }

    /** The status dispatch shared by `XML_Parse` and `XML_ResumeParser`. */
    method Settle(status: M.Status, isFinal: bool, reply: M.Reply)
      requires Valid()
      modifies this`errorCode, this`parseErrorCode, this`parsing, this`shell
      ensures Valid()
      ensures shell == old(shell).(life := M.Settled(old(shell.life), status, isFinal, reply))
    {
      if status == M.StatusSuspended {
        Conclude(M.Suspended, M.NoError);
      } else if status == M.StatusError {
        var error := reply.error;
        if error == M.NoError {
          error := errorCode;
        }
        RecordParseError(if error != M.NoError then error else M.UnexpectedState);
      } else if status == M.StatusOk && !isFinal {
        Conclude(M.Parsing, M.NoError);
      } else {
        Conclude(M.Finished, M.NoError);
      }
    }

    /** The bridge call and what follows it, as in `XML_Parse` and `XML_ResumeParser`. */
    method CallBridge(dest: int32, len: int32, isFinal: bool, reply: M.Reply) returns (status: M.Status, credited: bool)
      requires Valid() && ReplyFits(reply)
      requires 0 <= dest && 0 <= len && dest as int + len as int <= bufferCapacity as int
      modifies this`errorCode, this`stopRequested, this`stopResumable, this`parsing, this`bufferLength, this`shell
      modifies this`parseErrorCode, buffer, Parents()`externalChildParseCount
      modifies this`nextExternalEntityIsParameter, this`nextExternalEntityIsParameterLiteral
      ensures Valid()
      ensures (shell, status, credited) == M.Through(old(shell), old(Slice(dest, len)), isFinal, reply)
      ensures ParentCredited(old(ParentCount()), credited)
    {
      status := BridgeParse(dest, len, isFinal, reply);
      status, credited := FinishExternalChildParse(status, len, isFinal, reply);
      Settle(status, isFinal, reply);
    }

    /** The input a caller's pointer and length designate, if they are usable. */
    static ghost function InputAt(src: array?<byte>, off: nat, len: int32): Option<seq<byte>>
      requires len > 0 && src != null ==> off + len as int <= src.Length
      reads src
    {
      if len < 0 || (src == null && len > 0) then None else Some(Region(src, off, len as int))
    }

    method RecordFinal(isFinal: bool)
      requires Valid()
      modifies this`finalBuffer, this`shell
      ensures Valid() && shell == old(shell).(life := old(shell.life).(finalBuffer := isFinal))
    {
      finalBuffer := isFinal;
      shell := shell.(life := LifeNow());
    }

    /** The error code and the stop state are cleared, the state is PARSING. */
    method ClearForCall()
      requires Valid()
      modifies this`errorCode, this`parsing, this`stopRequested, this`stopResumable, this`shell
      ensures Valid() && shell == M.Entering(old(shell))
    {
      errorCode := M.NoError;
      stopRequested, stopResumable := false, false;
      parsing := M.Parsing;
      shell := M.Entering(shell);
    }

    /** A committed chunk enters the history, and the parser is readied for the call. */
    method EnterCall(ghost input: seq<byte>, isFinal: bool)
      requires Valid()
      modifies this`errorCode, this`parsing, this`stopRequested, this`stopResumable, this`shell
      ensures Valid()
      ensures shell == M.Entering(old(shell).(accepted := old(shell.accepted) + [M.Call(input, isFinal)]))
    {
      shell := shell.(accepted := shell.accepted + [M.Call(input, isFinal)]);
      ClearForCall();
    }

    /** The guards of `XML_Parse`. */
    method Guard(usable: bool, isFinal: bool) returns (refused: bool)
      requires Valid()
      modifies this`errorCode, this`parsing, this`finalBuffer, this`shell
      ensures Valid()
      ensures M.Guard(old(shell), usable, isFinal) == if refused then Some(shell) else None
      ensures !refused ==> shell == old(shell)
    {
      refused := true;
      if !usable {
        SetError(M.InvalidArgument);
      } else if parsing == M.Suspended {
        SetError(M.ErrSuspended);
      } else if parsing == M.Finished {
        SetError(M.ErrFinished);
      } else if parseErrorCode != M.NoError {
        SetError(parseErrorCode);
      } else if !hasBridge {
        Conclude(M.Finished, M.NotStarted);
        RecordFinal(isFinal);
      } else {
        refused := false;
      }
    }

    /** The chunk is committed; on success the bridge may be called on it. */
    method AcceptChunk(src: array?<byte>, off: nat, len: int32, isFinal: bool, mallocOk: bool)
      returns (entered: bool, dest: int32)
      requires Valid() && 0 <= len
      requires len > 0 ==> src != null && off + len as int <= src.Length
      modifies this`buffer, this`bufferCapacity, this`bufferLength, this`errorCode, this`shell, buffer
      modifies this`parsing, this`stopRequested, this`stopResumable
      ensures Valid() && (buffer == old(buffer) || fresh(buffer))
      ensures entered ==> 0 <= dest && dest as int + len as int <= bufferCapacity as int
      ensures entered ==> Slice(dest, len) == old(Region(src, off, len as int))
      ensures M.AcceptChunk(old(shell), old(Region(src, off, len as int)), isFinal, mallocOk)
        == if entered then M.Entered(shell) else M.Rejected(shell)
    {
      ghost var input := Region(src, off, len as int);
      entered, dest := InputBuffer(len, src, off, true, mallocOk);
      if entered {
        CommittedSlice(old(shell.window), input, dest, len);
        EnterCall(input, isFinal);
      }
    }

    /** The bytes just appended to the window are the ones at `dest`. */
    lemma CommittedSlice(before: seq<byte>, input: seq<byte>, dest: int32, len: int32)
      requires BufferValid() && Window() == before + input
      requires |before| == dest as int && |input| == len as int
      ensures dest as int + len as int <= bufferCapacity as int && Slice(dest, len) == input
    {
      assert Window()[dest..] == input;
    }

    /** `XML_Parse` up to the bridge call. */
    method BeginParse(src: array?<byte>, off: nat, len: int32, isFinal: bool, mallocOk: bool)
      returns (entered: bool, dest: int32)
      requires Valid()
      requires len > 0 && src != null ==> off + len as int <= src.Length
      modifies this`buffer, this`bufferCapacity, this`bufferLength, this`errorCode, this`shell, buffer
      modifies this`parsing, this`finalBuffer, this`stopRequested, this`stopResumable
      ensures Valid() && (buffer == old(buffer) || fresh(buffer))
      ensures entered ==> 0 <= dest && 0 <= len && dest as int + len as int <= bufferCapacity as int
      ensures entered ==> old(InputAt(src, off, len)) == Some(Slice(dest, len))
      ensures M.BeginParse(old(shell), old(InputAt(src, off, len)), isFinal, mallocOk)
        == if entered then M.Entered(shell) else M.Rejected(shell)
    {
      entered, dest := false, 0;
      var refused := Guard(len >= 0 && (src != null || len == 0), isFinal);
      if !refused {
        entered, dest := AcceptChunk(src, off, len, isFinal, mallocOk);
      }
    }

    /** `XML_Parse`. */
    method Parse(src: array?<byte>, off: nat, len: int32, isFinal: bool, mallocOk: bool, reply: M.Reply)
      returns (status: M.Status, credited: bool)
      requires Valid() && ReplyFits(reply)
      requires len > 0 && src != null ==> off + len as int <= src.Length
      modifies this, buffer, Parents()`externalChildParseCount
      ensures Valid() && (buffer == old(buffer) || fresh(buffer))
      ensures (shell, status, credited)
        == M.Parse(old(shell), old(InputAt(src, off, len)), isFinal, mallocOk, reply)
      ensures ParentCredited(old(ParentCount()), credited)
    {
      hide M.BeginParse, M.Through, InputAt;
      var entered, dest := BeginParse(src, off, len, isFinal, mallocOk);
      if !entered {
        return M.StatusError, false;
      }
      status, credited := CallBridge(dest, len, isFinal, reply);
      RecordFinal(isFinal);
    }

    /** `XML_GetBuffer`; `dest` is the offset of the region handed out. */
    method GetBuffer(len: int32, mallocOk: bool) returns (ok: bool, dest: int32)
      requires Valid()
      modifies this`buffer, this`bufferCapacity, this`bufferLength, this`errorCode, this`shell, buffer
      ensures Valid() && (buffer == old(buffer) || fresh(buffer))
      ensures (shell, ok) == M.GetBuffer(old(shell), len as int, mallocOk)
      ensures ok ==> buffer != null && dest == bufferLength && 0 <= len
      ensures ok ==> dest as int + len as int <= bufferCapacity as int
    {
      ok, dest := false, 0;
      if len < 0 {
        SetError(M.NoMemory);
      } else if parsing == M.Suspended || parsing == M.Finished {
        SetError(if parsing == M.Suspended then M.ErrSuspended else M.ErrFinished);
      } else {
        ok, dest := InputBuffer(len, null, 0, false, mallocOk);
        assert old(shell.window) + [] == old(shell.window);
      }
    }

    /** Does `input` stand for what `XML_ParseBuffer` is asked to take? */
    ghost predicate Stands(input: Option<seq<byte>>, len: int32)
      requires Valid()
      reads this, buffer
    {
      if len < 0 then input.None?
      else
        && input.Some? && |input.value| == len as int
        && (len as int <= bufferCapacity as int - bufferLength as int ==> input.value == Slice(bufferLength, len))
    }

    /** `XML_ParseBuffer`; the bytes taken are those standing behind the window. */
    method ParseBuffer(len: int32, isFinal: bool, mallocOk: bool, reply: M.Reply, ghost input: Option<seq<byte>>)
      returns (status: M.Status, credited: bool)
      requires Valid() && ReplyFits(reply) && Stands(input, len)
      modifies this, buffer, Parents()`externalChildParseCount
      ensures Valid() && (buffer == old(buffer) || fresh(buffer))
      ensures (shell, status, credited) == M.ParseBuffer(old(shell), input, isFinal, mallocOk, reply)
      ensures ParentCredited(old(ParentCount()), credited)
    {
      status, credited := M.StatusError, false;
      if len < 0 {
        SetError(M.InvalidArgument);
      } else if parsing == M.Suspended {
        SetError(M.ErrSuspended);
      } else if parsing == M.Finished {
        SetError(M.ErrFinished);
      } else if buffer == null {
        if len == 0 && parsing == M.Parsing {
          var empty := new byte[1];
          status, credited := Parse(empty, 0, 0, isFinal, mallocOk, reply);
        } else {
          SetError(M.NoBuffer);
        }
      } else if len > bufferCapacity - bufferLength {
        SetError(M.InvalidArgument);
      } else {
        status, credited := Parse(buffer, bufferLength as int, len, isFinal, mallocOk, reply);
      }
    }

    /** `XML_ResumeParser`. */
    method ResumeParser(reply: M.Reply) returns (status: M.Status, credited: bool)
      requires Valid() && ReplyFits(reply)
      modifies this, buffer, Parents()`externalChildParseCount
      ensures Valid() && buffer == old(buffer)
      ensures (shell, status, credited) == M.ResumeParser(old(shell), reply)
      ensures ParentCredited(old(ParentCount()), credited)
    {
      status, credited := M.StatusError, false;
      if parsing != M.Suspended {
        SetError(M.NotSuspended);
      } else if !hasBridge {
        Conclude(M.Finished, M.NotStarted);
      } else {
        ClearForCall();
        status, credited := CallBridge(0, 0, finalBuffer, reply);
      }
    }

    /** `XML_ParserReset`: everything is cleared but the input storage. */
    method Reset(bridgeOk: bool) returns (ok: bool)
      requires Valid()
      modifies this
      ensures Valid() && buffer == old(buffer)
      ensures (shell, ok) == M.Reset(old(shell), bridgeOk)
      ensures externalChildParseCount == if ok then 0 else old(externalChildParseCount)
      ensures externalEntityIsParameterLiteral == (!ok && old(externalEntityIsParameterLiteral))
      ensures nextExternalEntityIsParameter == (!ok && old(nextExternalEntityIsParameter))
      ensures nextExternalEntityIsParameterLiteral == (!ok && old(nextExternalEntityIsParameterLiteral))
    {
      if parentParser != null {
        return false;
      }
      if !hasBridge {
        SetError(M.NotStarted);
        return false;
      }
      if !bridgeOk {
        return false;
      }
      ClearAll();
      ok := true;
    }

    /** The part of `XML_ParserReset` behind its guards; the storage stays. */
    method ClearAll()
      requires Valid() && hasBridge && parentParser == null
      modifies this
      ensures Valid() && buffer == old(buffer) && externalChildParseCount == 0
      ensures !externalEntityIsParameterLiteral
      ensures !nextExternalEntityIsParameter && !nextExternalEntityIsParameterLiteral
      ensures shell == M.Create(true).(capacity := old(shell).capacity)
    {
      externalChildParseCount := 0;
      externalEntityIsParameterLiteral := false;
      nextExternalEntityIsParameter, nextExternalEntityIsParameterLiteral := false, false;
      ClearLife();
      ClearWindow();
    }

    method ClearLife()
      requires Valid()
      modifies this`parsing, this`errorCode, this`parseErrorCode, this`finalBuffer, this`stopRequested
      modifies this`stopResumable, this`shell
      ensures Valid() && shell == old(shell).(life := M.NewLife(true))
    {
      parsing, errorCode, parseErrorCode := M.Initialized, M.NoError, M.NoError;
      finalBuffer, stopRequested, stopResumable := false, false, false;
      shell := shell.(life := LifeNow());
    }

    /** The storage stays, empty; with it the histories begin anew. */
    method ClearWindow()
      requires Valid() && hasBridge && parentParser == null && shell.life == M.NewLife(true)
      modifies this`bufferLength, this`externalEntityIsParameter, this`shell
      ensures Valid() && shell == M.Create(true).(capacity := old(shell).capacity)
    {
      externalEntityIsParameter := false;
      bufferLength := 0;
      shell := M.Create(true).(capacity := shell.capacity);
    }

    /** What the new child is, by its context and the flags set for it. */
    method SpendFlags(hasContext: bool) returns (isParameter: bool, isLiteral: bool)
      modifies this`nextExternalEntityIsParameter, this`nextExternalEntityIsParameterLiteral
      ensures isParameter == (!hasContext || old(nextExternalEntityIsParameter))
      ensures isLiteral == old(nextExternalEntityIsParameterLiteral)
      ensures !nextExternalEntityIsParameter && !nextExternalEntityIsParameterLiteral
    {
      isParameter := !hasContext || nextExternalEntityIsParameter;
      isLiteral := nextExternalEntityIsParameterLiteral;
      nextExternalEntityIsParameter, nextExternalEntityIsParameterLiteral := false, false;
    }

    /**
      `XML_ExternalEntityParserCreate`. The last four arguments answer the calls that
      configure the child's bridge, in their order; a child without a bridge skips them.
      The flags for the next child are spent once the first of them has succeeded.
     */
    method ExternalEntityParserCreate(hasContext: bool, childHasBridge: bool, created: bool,
                                      contextOk: bool, parameterOk: bool, literalOk: bool, inheritOk: bool)
      returns (child: Parser?)
      requires Valid()
      modifies this`errorCode, this`nextExternalEntityIsParameter, this`nextExternalEntityIsParameterLiteral, this`shell
      ensures Valid()
      ensures child != null <==>
        hasBridge && created && (childHasBridge ==> contextOk && parameterOk && literalOk && inheritOk)
      ensures child != null ==> fresh(child) && child.Valid() && child.parentParser == this
      ensures child != null ==> child.buffer == null && child.externalChildParseCount == 0
      ensures child != null ==>
        child.shell == M.CreateChild(childHasBridge, !hasContext || old(nextExternalEntityIsParameter))
      ensures child != null ==>
        child.externalEntityIsParameterLiteral == old(nextExternalEntityIsParameterLiteral)
      ensures
        var spent := hasBridge && created && (childHasBridge ==> contextOk);
        && nextExternalEntityIsParameter == (!spent && old(nextExternalEntityIsParameter))
        && nextExternalEntityIsParameterLiteral == (!spent && old(nextExternalEntityIsParameterLiteral))
      ensures shell == M.ChildRequested(old(shell), created,
                                        childHasBridge ==> contextOk && parameterOk && literalOk && inheritOk)
    {
      child := null;
      if !hasBridge {
        SetError(M.NotStarted);
      } else if !created {
        SetError(M.NoMemory);
      } else if childHasBridge && !contextOk {
        SetError(M.InvalidArgument);
      } else {
        var isParameter, isLiteral := SpendFlags(hasContext);
        if childHasBridge && !parameterOk {
          SetError(M.InvalidArgument);
        } else if childHasBridge && !literalOk {
          SetError(M.InvalidArgument);
        } else if childHasBridge && !inheritOk {
          SetError(M.InvalidArgument);
        } else {
          child := new Parser.Child(this, childHasBridge, isParameter, isLiteral);
        }
      }
    }
  }
}
