/**
  The native parser shell as values: the observable state of one
  `XML_ParserStruct` and what each entry point does to it. The class in
  NativeParser.dfy is proved against these functions.
 */
module ShellModel {
  import opened Core

  datatype Status = StatusError | StatusOk | StatusSuspended

  datatype Phase = Initialized | Parsing | Suspended | Finished

  datatype XmlError =
    | NoError | NoMemory | Syntax | NoElements | InvalidToken | UnclosedToken
    | PartialChar | TagMismatch | DuplicateAttribute | JunkAfterDocElement
    | ParamEntityRef | UndefinedEntity | RecursiveEntityRef | AsyncEntity
    | BadCharRef | BinaryEntityRef | AttributeExternalEntityRef | MisplacedXmlPi
    | UnknownEncoding | IncorrectEncoding | UnclosedCdataSection
    | ExternalEntityHandling | NotStandalone | UnexpectedState | EntityDeclaredInPe
    | FeatureRequiresXmlDtd | CantChangeFeatureOnceParsing | UnboundPrefix
    | UndeclaringPrefix | IncompletePe | XmlDecl | TextDecl | PublicId
    | ErrSuspended | NotSuspended | Aborted | ErrFinished | SuspendPe
    | ReservedPrefixXml | ReservedPrefixXmlns | ReservedNamespaceUri
    | InvalidArgument | NoBuffer | AmplificationLimitBreach | NotStarted

  /** One chunk handed over: its bytes and whether it was marked final. */
  datatype Call = Call(bytes: seq<byte>, isFinal: bool)

  /** Where a parser is in its life, and what it last reported. */
  datatype Life = Life(
    phase: Phase,
    error: XmlError,
    parseError: XmlError,
    finalBuffer: bool,
    stopRequested: bool,
    stopResumable: bool)

  /**
    One parser. `window` is the retained prefix of the input buffer, so
    `|window|` is `bufferLength`; `capacity` is 0 exactly when the buffer is NULL.
    `accepted`, `log` and `merges` are history: the chunks committed and the
    bridge calls made since creation or reset, and how often this parser asked
    the bridge to merge its accounting into its parent.
   */
  datatype Shell = Shell(
    attached: bool,
    hasParent: bool,
    isParameter: bool,
    window: seq<byte>,
    capacity: nat,
    life: Life,
    accepted: seq<Call>,
    log: seq<Call>,
    merges: nat)
  {
    /** `xp_set_error`. */
    function Failing(code: XmlError): Shell {
      this.(life := life.(error := code))
    }
  }

  /**
    What a callback may do to the parser while the bridge is parsing. A child it asks for
    is a parser of its own; `created` and `configured` answer the steps that make it.
   */
  datatype Action = Stop(resumable: bool) | Consume(pending: int) | AskChild(created: bool, configured: bool)

  /**
    Everything the environment decides during one bridge call: the callbacks'
    actions, the status returned, the error code the bridge then reports, and
    the outcome of the two merges a child parser may ask for.
   */
  datatype Reply = Reply(
    actions: seq<Action>,
    status: Status,
    error: XmlError,
    mergeOk: bool,
    contextOk: bool)

  const MAXIMUM_CAPACITY: int := 0x4000_0000
  const INITIAL_CAPACITY: int := 1024
  const CONTEXT_BYTES: int := 1024

  /** The life of a parser that has seen no input. */
  function NewLife(attached: bool): Life {
    Life(Initialized, if attached then NoError else NotStarted, NoError, false, false, false)
  }

  /** `XML_ParserCreate_MM`, with or without a usable bridge. */
  function Create(attached: bool): Shell {
    Shell(attached, false, false, [], 0, NewLife(attached), [], [], 0)
  }

  /** A parser made by `XML_ExternalEntityParserCreate`. */
  function CreateChild(attached: bool, isParameter: bool): Shell {
    Create(attached).(hasParent := true, isParameter := isParameter)
  }

  /** The bytes of a list of calls, in order. */
  function Bytes(calls: seq<Call>): seq<byte> {
    if calls == [] then [] else Bytes(calls[..|calls| - 1]) + calls[|calls| - 1].bytes
  }

  // ---- the input buffer -------------------------------------------------

  /** The capacity the doubling loop of `xp_input_buffer` stops at. */
  function Grown(capacity: int, required: int): (r: int)
    requires 0 < capacity
    ensures capacity <= r && required <= r
    decreases required - capacity
  {
    if capacity < required then Grown(2 * capacity, required) else capacity
  }

  /** Does a window of `required` bytes need a new allocation? */
  predicate NeedsAllocation(capacity: nat, required: int) {
    capacity == 0 || required > capacity
  }

  predicate RequestGranted(length: nat, capacity: nat, len: int, mallocOk: bool) {
    && 0 <= len <= MAXIMUM_CAPACITY - length
    && (NeedsAllocation(capacity, length + len) ==> mallocOk)
  }

  function CapacityFor(capacity: nat, required: int): nat {
    if NeedsAllocation(capacity, required)
    then Grown(if capacity > 0 then capacity else INITIAL_CAPACITY, required)
    else capacity
  }

  /** `xp_input_buffer` without commit: room for `len` bytes, or NO_MEMORY. */
  function Reserve(s: Shell, len: int, mallocOk: bool): (Shell, bool) {
    if RequestGranted(|s.window|, s.capacity, len, mallocOk)
    then (s.(capacity := CapacityFor(s.capacity, |s.window| + len)), true)
    else (s.Failing(NoMemory), false)
  }

  /** `xp_input_buffer` with commit: the bytes become part of the window. */
  function Commit(s: Shell, len: int, input: seq<byte>, mallocOk: bool): (Shell, bool) {
    var (t, ok) := Reserve(s, len, mallocOk);
    (if ok then t.(window := s.window + input) else t, ok)
  }

  /** How many bytes `xp_consume_input_prefix` keeps. */
  function Kept(length: nat, pending: int): (keep: int)
    requires 0 <= pending <= length
  {
    Min(length - pending, CONTEXT_BYTES) + pending
  }

  /** `xp_consume_input_prefix`. */
  function ConsumePrefix(s: Shell, pending: int): Shell {
    if s.capacity == 0 || pending < 0 || pending > |s.window| then s
    else s.(window := Last(s.window, Kept(|s.window|, pending)))
  }

  // ---- stopping ---------------------------------------------------------

  /** `XML_StopParser` on a parser of the given kind. */
  function Stopped(l: Life, isParameter: bool, resumable: bool): (Life, Status) {
    match l.phase
    case Initialized => (l.(error := NotStarted), StatusError)
    case Finished => (l.(error := ErrFinished), StatusError)
    case Suspended =>
      if resumable then (l.(error := ErrSuspended), StatusError)
      else (l.(stopRequested := true, stopResumable := false, phase := Finished, error := Aborted), StatusOk)
    case Parsing =>
      if l.stopRequested && !l.stopResumable then (l.(error := ErrFinished), StatusError)
      else if l.stopRequested && l.stopResumable && resumable then (l.(error := ErrSuspended), StatusError)
      else if resumable && isParameter then (l.(error := SuspendPe), StatusError)
      else if resumable then
        (l.(stopRequested := true, stopResumable := true, phase := Suspended, error := NoError), StatusOk)
      else
        (l.(stopRequested := true, stopResumable := false, phase := Finished, error := Aborted), StatusOk)
  }

  /** `XML_StopParser`. */
  function StopParser(s: Shell, resumable: bool): (Shell, Status) {
    var (l, status) := Stopped(s.life, s.isParameter, resumable);
    (s.(life := l), status)
  }

  // ---- one bridge call --------------------------------------------------

  function Act(s: Shell, action: Action): Shell {
    match action
    case Stop(resumable) => StopParser(s, resumable).0
    case Consume(pending) => ConsumePrefix(s, pending)
    case AskChild(created, configured) => ChildRequested(s, created, configured)
  }

  function ActAll(s: Shell, actions: seq<Action>): Shell {
    if actions == [] then s
    else Act(ActAll(s, actions[..|actions| - 1]), actions[|actions| - 1])
  }

  /** Before the bridge is entered: errors and stop state cleared, PARSING. */
  function Entering(s: Shell): Shell {
    s.(life := s.life.(error := NoError, stopRequested := false, stopResumable := false, phase := Parsing))
  }

  /** The bridge is entered with these bytes. */
  function Logged(s: Shell, bytes: seq<byte>, isFinal: bool): Shell {
    s.(log := s.log + [Call(bytes, isFinal)])
  }

  /** `xp_finish_external_child_parse`; the flag says the parent is credited. */
  function FinishChild(s: Shell, status: Status, len: int, isFinal: bool, reply: Reply): (Shell, Status, bool) {
    if s.hasParent && status.StatusOk? && isFinal && len > 0 then
      var t := s.(merges := s.merges + 1);
      if reply.mergeOk && (s.isParameter ==> reply.contextOk) then (t, StatusOk, true)
      else (t.Failing(ExternalEntityHandling), StatusError, false)
    else (s, status, false)
  }

  /** `xp_parse_error`. */
  function ParseErrorOf(error: XmlError, reply: Reply): XmlError {
    if reply.error != NoError then reply.error
    else if error != NoError then error
    else UnexpectedState
  }

  /** The status dispatch that ends both `XML_Parse` and `XML_ResumeParser`. */
  function Settled(l: Life, status: Status, isFinal: bool, reply: Reply): Life {
    match status
    case StatusSuspended => l.(error := NoError, phase := Suspended)
    case StatusError => var e := ParseErrorOf(l.error, reply); l.(parseError := e, error := e)
    case StatusOk => l.(error := NoError, phase := if isFinal then Finished else Parsing)
  }

  /** Leaving the bridge after a call of `len` bytes. */
  function LeaveBridge(s: Shell, len: int, isFinal: bool, reply: Reply): (Shell, Status, bool) {
    var (t, status, credited) := FinishChild(s, reply.status, len, isFinal, reply);
    (t.(life := Settled(t.life, status, isFinal, reply)), status, credited)
  }

  /** One bridge call on `bytes`, from just before to just after it. */
  function Through(s: Shell, bytes: seq<byte>, isFinal: bool, reply: Reply): (Shell, Status, bool) {
    LeaveBridge(ActAll(Logged(s, bytes, isFinal), reply.actions), |bytes|, isFinal, reply)
  }

  // ---- entry points -----------------------------------------------------

  datatype Entry = Rejected(after: Shell) | Entered(inside: Shell)

  /** The guards of `XML_Parse`, in order; `usable` is false for a bad pointer or length. */
  function Guard(s: Shell, usable: bool, isFinal: bool): Option<Shell> {
    if !usable then Some(s.Failing(InvalidArgument))
    else if s.life.phase.Suspended? then Some(s.Failing(ErrSuspended))
    else if s.life.phase.Finished? then Some(s.Failing(ErrFinished))
    else if s.life.parseError != NoError then Some(s.Failing(s.life.parseError))
    else if !s.attached then
      Some(s.(life := s.life.(error := NotStarted, phase := Finished, finalBuffer := isFinal)))
    else None
  }

  /** The chunk is committed and the parser readied for the bridge call. */
  function AcceptChunk(s: Shell, bytes: seq<byte>, isFinal: bool, mallocOk: bool): Entry {
    var (t, ok) := Commit(s, |bytes|, bytes, mallocOk);
    if !ok then Rejected(t)
    else Entered(Entering(t.(accepted := t.accepted + [Call(bytes, isFinal)])))
  }

  /**
    `XML_Parse` up to the bridge call. No input stands for a negative length,
    or a NULL pointer with a positive one.
   */
  function BeginParse(s: Shell, input: Option<seq<byte>>, isFinal: bool, mallocOk: bool): Entry {
    match Guard(s, input.Some?, isFinal)
    case Some(t) => Rejected(t)
    case None => AcceptChunk(s, input.value, isFinal, mallocOk)
  }

  /** The rest of `XML_Parse`: the bridge call, then the final flag is recorded. */
  function FinishParse(s: Shell, bytes: seq<byte>, isFinal: bool, reply: Reply): (Shell, Status, bool) {
    var (t, status, credited) := Through(s, bytes, isFinal, reply);
    (t.(life := t.life.(finalBuffer := isFinal)), status, credited)
  }

  /** `XML_Parse`. */
  function Parse(s: Shell, input: Option<seq<byte>>, isFinal: bool, mallocOk: bool, reply: Reply)
    : (Shell, Status, bool)
  {
    match BeginParse(s, input, isFinal, mallocOk)
    case Rejected(t) => (t, StatusError, false)
    case Entered(t) => FinishParse(t, input.value, isFinal, reply)
  }

  /** `XML_GetBuffer`. */
  function GetBuffer(s: Shell, len: int, mallocOk: bool): (Shell, bool) {
    if len < 0 then (s.Failing(NoMemory), false)
    else if s.life.phase.Suspended? then (s.Failing(ErrSuspended), false)
    else if s.life.phase.Finished? then (s.Failing(ErrFinished), false)
    else Reserve(s, len, mallocOk)
  }

  /** Why `XML_ParseBuffer` does not pass its call on to `XML_Parse`, if it does not. */
  function BufferRefusal(s: Shell, input: Option<seq<byte>>): Option<XmlError> {
    if input.None? then Some(InvalidArgument)
    else if s.life.phase.Suspended? then Some(ErrSuspended)
    else if s.life.phase.Finished? then Some(ErrFinished)
    else if s.capacity == 0 then
      if input.value == [] && s.life.phase.Parsing? then None else Some(NoBuffer)
    else if |input.value| > s.capacity - |s.window| then Some(InvalidArgument)
    else None
  }

  /**
    `XML_ParseBuffer`, where `input` holds the bytes standing just behind the
    window (none for a negative length).
   */
  function ParseBuffer(s: Shell, input: Option<seq<byte>>, isFinal: bool, mallocOk: bool, reply: Reply)
    : (Shell, Status, bool)
  {
    match BufferRefusal(s, input)
    case Some(code) => (s.Failing(code), StatusError, false)
    case None => Parse(s, input, isFinal, mallocOk, reply)
  }

  /** `XML_ResumeParser` up to the bridge call. */
  function BeginResume(s: Shell): Entry {
    if !s.life.phase.Suspended? then Rejected(s.Failing(NotSuspended))
    else if !s.attached then Rejected(s.(life := s.life.(error := NotStarted, phase := Finished)))
    else Entered(Entering(s))
  }

  /** `XML_ResumeParser`. */
  function ResumeParser(s: Shell, reply: Reply): (Shell, Status, bool) {
    match BeginResume(s)
    case Rejected(t) => (t, StatusError, false)
    case Entered(t) => Through(t, [], s.life.finalBuffer, reply)
  }

  /** `XML_ParserReset`; `bridgeOk` is the answer of the bridge's own reset. */
  function Reset(s: Shell, bridgeOk: bool): (Shell, bool) {
    if s.hasParent then (s, false)
    else if !s.attached then (s.Failing(NotStarted), false)
    else if !bridgeOk then (s, false)
    else (Create(true).(capacity := s.capacity), true)
  }

  /** What `XML_ExternalEntityParserCreate` leaves behind in the parent. */
  function ChildRequested(s: Shell, created: bool, configured: bool): Shell {
    if !s.attached then s.Failing(NotStarted)
    else if !created then s.Failing(NoMemory)
    else if !configured then s.Failing(InvalidArgument)
    else s
  }
}
