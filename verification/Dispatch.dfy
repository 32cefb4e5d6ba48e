/** The lines that the broker and the websocket executor exchange: how a job is
    written, how the executor reads it, and how a result is written and read
    (src/linux_fastcgi.cpp:234-307, 387-483, 951-983). */
module Dispatch {
  import opened Bytes
  import opened Text
  import opened DTreeModel
  import opened Json
  import opened JsonRoundTrip
  import opened LineStream
  import opened PushOrder
  import Base64

  // ----- reading fields -----

  /** `DTree::to_stringmap` */
  function ToStringMap(t: Tree): seq<(string, string)> {
    match t
    case Map(es, _, _) => Pairs(es)
    case Str(s) => if Trim(s) != "" then [("value", s)] else []
    case _ => [("value", ToText(t))]
  }

  function Pairs(es: seq<Entry>): seq<(string, string)> {
    if es == [] then [] else [(es[0].key, ToText(es[0].value))] + Pairs(es[1..])
  }

  /** The texts that `each` comes by: a scalar is its own only item. */
  function EachText(t: Tree): seq<string> {
    if t.Map? then TextsOf(t.entries) else [ToText(t)]
  }

  function TextsOf(es: seq<Entry>): seq<string> {
    if es == [] then [] else [ToText(es[0].value)] + TextsOf(es[1..])
  }

  /** `to_u64`, cast to a word of `size` values, on a plain decimal text: digits, a
      point and digits.  None stands for any other text that strtod may read. */
  function ToWord(t: Tree, size: nat): Option<nat>
    requires size > 0
  {
    var s := ToText(t);
    var dot := Find(s, '.', 0);
    if 0 < dot < |s| && AllDigits(s[..dot]) && AllDigits(s[dot + 1..]) then Some(DigitsValue(s[..dot]) % size) else None
  }

  // ----- a job -----

  /** What `handle_websocket_message` is given. */
  datatype Request = Request(
    connection: string, scope: string, opcode: byte, isBinary: bool, isText: bool,
    message: seq<byte>, state: Option<Tree>, params: seq<(string, string)>, peers: seq<string>)

  /** `params` is a `std::map`, and the state a tree of maps. */
  ghost predicate ValidRequest(r: Request) {
    && (r.state.Some? ==> Valid(r.state.value))
    && forall i, j | 0 <= i < j < |r.params| :: Less(r.params[i].0, r.params[j].0)
  }

  function ParamsTree(params: seq<(string, string)>): (t: Tree) {
    if params == [] then EMPTY_TREE
    else var last := params[|params| - 1];
      SetKey(ParamsTree(params[..|params| - 1]), last.0, Str(last.1))
  }

  function PeersTree(peers: seq<string>): (t: Tree) {
    if peers == [] then EMPTY_TREE
    else PushValue(PeersTree(peers[..|peers| - 1]), Str(peers[|peers| - 1]))
  }

  function JobHead(r: Request): Tree {
    var t1 := SetKey(EMPTY_TREE, "type", Str("dispatch"));
    var t2 := SetKey(t1, "connection_id", Str(r.connection));
    var t3 := SetKey(t2, "scope", Str(r.scope));
    SetKey(t3, "opcode", Num(false, r.opcode as int * 1000000))
  }

  /** The fields every job has, in the order in which they are assigned. */
  function PlainJob(r: Request): Tree {
    var t5 := SetKey(JobHead(r), "is_binary", Bool(r.isBinary));
    var t6 := SetKey(t5, "is_text", Bool(r.isText));
    SetKey(t6, "message_b64", Str(Base64.Encode(r.message)))
  }

  function WithState(t: Tree, state: Option<Tree>): Tree {
    if state.Some? then SetKey(t, "connection_state", state.value) else t
  }

  function JobTree(r: Request): Tree {
    var t1 := WithState(PlainJob(r), r.state);
    var t2 := if r.params == [] then t1 else SetKey(t1, "params", ParamsTree(r.params));
    if r.peers == [] then t2 else SetKey(t2, "scope_connections", PeersTree(r.peers))
  }

  function JobBody(r: Request): string {
    JsonEncode(JobTree(r))
  }

  // ----- a handler's answer -----

  datatype Command =
    | Broadcast(scope: string, message: seq<byte>, binary: bool)
    | SendTo(connection: string, message: seq<byte>, binary: bool)
    | CloseConnection(connection: string, status: nat, reason: string)

  function MessageCommand(action: string, message: seq<byte>, binary: bool): Tree {
    var t1 := SetKey(EMPTY_TREE, "action", Str(action));
    var t2 := SetKey(t1, "binary", Bool(binary));
    SetKey(t2, "message_b64", Str(Base64.Encode(message)))
  }

  function CommandTree(c: Command): Tree {
    match c
    case Broadcast(scope, m, b) => SetKey(MessageCommand("broadcast", m, b), "scope", Str(scope))
    case SendTo(connection, m, b) => SetKey(MessageCommand("send_to", m, b), "connection_id", Str(connection))
    case CloseConnection(connection, status, reason) =>
      var t1 := SetKey(EMPTY_TREE, "action", Str("close"));
      var t2 := SetKey(t1, "connection_id", Str(connection));
      var t3 := SetKey(t2, "status_code", Num(false, status * 1000000));
      SetKey(t3, "reason", Str(reason))
  }

  function CommandsTree(cs: seq<Command>): (t: Tree) {
    if cs == [] then EMPTY_TREE
    else PushValue(CommandsTree(cs[..|cs| - 1]), CommandTree(cs[|cs| - 1]))
  }

  /** What a handler leaves behind: the state of its connection and the commands
      it issued. */
  datatype Answer = Answer(state: Tree, commands: seq<Command>)

  function ResponseTree(connection: string, a: Answer): Tree {
    var t1 := SetKey(EMPTY_TREE, "type", Str("result"));
    var t2 := SetKey(t1, "connection_id", Str(connection));
    var t3 := SetKey(t2, "connection_state", a.state);
    SetKey(t3, "commands", CommandsTree(a.commands))
  }

  function ResponseBody(connection: string, a: Answer): string {
    JsonEncode(ResponseTree(connection, a))
  }

  // ----- the executor reads a line -----

  /** What the handler sees of the message, from which the WS_ parameters are made. */
  datatype Event = Event(
    connection: string, scope: string, opcode: Option<nat>, message: seq<byte>, isBinary: bool, isText: bool,
    peers: seq<string>, state: Tree, params: seq<(string, string)>)

  datatype LineOutcome =
    | Ignored
    | Hangs
    | Handled(event: Event, response: string)

  function EventOf(job: Tree, message: seq<byte>): Event {
    Event(ToText(Field(job, "connection_id")), ToText(Field(job, "scope")), ToWord(Field(job, "opcode"), 0x100),
          message, Field(job, "is_binary") == Bool(true), Field(job, "is_text") == Bool(true),
          EachText(Field(job, "scope_connections")),
          Field(job, "connection_state"), ToStringMap(Field(job, "params")))
  }

  /** `websocket_exec_process_job_line`, with the answer the handler comes to. */
  function ProcessJobLine(line: string, a: Answer): LineOutcome {
    var body := Trim(line);
    if body == "" then Ignored
    else match JsonDecode(body)
      case None => Hangs
      case Some(job) =>
        if ToText(Field(job, "type")) != "dispatch" then Ignored
        else match Base64.Decode(ToText(Field(job, "message_b64")))
          case None => Ignored
          case Some(message) =>
            var event := EventOf(job, message);
            Handled(event, ResponseBody(event.connection, a))
  }

  // ----- the broker reads a line -----

  datatype ResultOutcome =
    | NoResult
    | BrokerHangs
    | Result(connection: string, state: Tree, commands: Tree)

  /** `websocket_exec_handle_ipc_line` up to the effects. */
  function ReadResultLine(line: string): ResultOutcome {
    var body := Trim(line);
    if body == "" then NoResult
    else match JsonDecode(body)
      case None => BrokerHangs
      case Some(result) =>
        if ToText(Field(result, "type")) != "result" then NoResult
        else Result(ToText(Field(result, "connection_id")), Field(result, "connection_state"), Field(result,
            "commands"))
  }

  // ----- printed lines are single, trimmed lines -----

  lemma {:induction false} EscapeHasNoNewline(s: string, q: char)
    requires q != '\n'
    ensures NoNewline(EscapeBody(s, q))
  {
    if s != "" { EscapeHasNoNewline(s[1..], q); }
  }

  lemma NoNewlineConcat(a: string, b: string)
    requires NoNewline(a) && NoNewline(b)
    ensures NoNewline(a + b)
  {
  }

  /** An encoded tree contains no newline byte. */
  lemma {:induction false} EncodeHasNoNewline(t: Tree)
    ensures NoNewline(Encode(t, '"'))
    decreases t, 1
  {
    match t
    case Str(s) => EscapeHasNoNewline(s, '"');
    case Num(n, m) =>
    case Bool(b) =>
    case Map(es, _, _) =>
      ItemsHaveNoNewline(es);
      PairsHaveNoNewline(es);
  }

  lemma {:induction false} ItemsHaveNoNewline(es: seq<Entry>)
    ensures NoNewline(EncodeItems(es, '"'))
    decreases es, 0
  {
    if es != [] {
      EncodeHasNoNewline(es[0].value);
      ItemsHaveNoNewline(es[1..]);
    }
  }

  lemma {:induction false} PairsHaveNoNewline(es: seq<Entry>)
    ensures NoNewline(EncodePairs(es, '"'))
    decreases es, 0
  {
    if es != [] {
      EscapeHasNoNewline(es[0].key, '"');
      EncodeHasNoNewline(es[0].value);
      NoNewlineConcat(Escape(es[0].key, '"'), ": ");
      NoNewlineConcat(Escape(es[0].key, '"') + ": ", Encode(es[0].value, '"'));
      PairsHaveNoNewline(es[1..]);
    }
  }

  lemma TrimKeepsObject(t: Tree)
    requires t.Map?
    ensures Trim(JsonEncode(t)) == JsonEncode(t) && JsonEncode(t) != ""
  {
  }

  // ----- fields of assigned and of decoded trees -----

  lemma {:induction false} LookupCanon(es: seq<Entry>, key: string)
    ensures Lookup(CanonAll(es), key) == match Lookup(es, key) case None => None case Some(v) => Some(Canon(v))
  {
    if es != [] && es[0].key != key {
      LookupCanon(es[1..], key);
      assert CanonAll(es)[1..] == CanonAll(es[1..]);
    }
  }

  lemma FieldCanon(t: Tree, key: string)
    requires t.Map?
    ensures Field(Canon(t), key) == Canon(Field(t, key))
  {
    LookupCanon(t.entries, key);
  }

  // ----- what a job tree holds -----

  /** Only the entry under `key` may hold a negative number. */
  predicate SignOnlyAt(es: seq<Entry>, key: string) {
    forall e | e in es :: e.key == key || SignFree(e.value)
  }

  lemma JobHeadFields(r: Request)
    ensures var t := JobHead(r);
      && t.Map? && AllValid(t.entries) && AllSignFree(t.entries)
      && Field(t, "type") == Str("dispatch") && Field(t, "connection_id") == Str(r.connection)
      && Field(t, "scope") == Str(r.scope) && Field(t, "opcode") == Num(false, r.opcode as int * 1000000)
      && Lookup(t.entries, "connection_state") == None && Lookup(t.entries, "params") == None
      && Lookup(t.entries, "scope_connections") == None
  {
    hide SetKey, Lookup, Sorted;
    var t1 := SetKey(EMPTY_TREE, "type", Str("dispatch"));
    SetKeyFacts(EMPTY_TREE, "type", Str("dispatch"));
    var t2 := SetKey(t1, "connection_id", Str(r.connection));
    SetKeyFacts(t1, "connection_id", Str(r.connection));
    var t3 := SetKey(t2, "scope", Str(r.scope));
    SetKeyFacts(t2, "scope", Str(r.scope));
    SetKeyFacts(t3, "opcode", Num(false, r.opcode as int * 1000000));
  }

  lemma PlainJobFields(r: Request)
    ensures var t := PlainJob(r);
      && t.Map? && AllValid(t.entries) && AllSignFree(t.entries)
      && Field(t, "type") == Str("dispatch") && Field(t, "connection_id") == Str(r.connection)
      && Field(t, "scope") == Str(r.scope) && Field(t, "is_binary") == Bool(r.isBinary)
      && Field(t, "is_text") == Bool(r.isText) && Field(t, "message_b64") == Str(Base64.Encode(r.message))
      && Field(t, "opcode") == Num(false, r.opcode as int * 1000000)
      && Lookup(t.entries, "connection_state") == None && Lookup(t.entries, "params") == None
      && Lookup(t.entries, "scope_connections") == None
  {
    hide SetKey, Lookup, Sorted, Base64.Encode, JobHead;
    var t4 := JobHead(r);
    JobHeadFields(r);
    var t5 := SetKey(t4, "is_binary", Bool(r.isBinary));
    SetKeyFacts(t4, "is_binary", Bool(r.isBinary));
    var t6 := SetKey(t5, "is_text", Bool(r.isText));
    SetKeyFacts(t5, "is_text", Bool(r.isText));
    SetKeyFacts(t6, "message_b64", Str(Base64.Encode(r.message)));
  }

  // ----- maps of texts, and pushed lists -----

  lemma {:induction false} ParamsTreeEntries(params: seq<(string, string)>)
    requires forall i, j | 0 <= i < j < |params| :: Less(params[i].0, params[j].0)
    requires params != []
    ensures ParamsTree(params).Map? && ParamsTree(params).entries == TextEntries(params)
  {
    hide MapPut, Less, Lookup;
    var n := |params| - 1;
    var front, last := params[..n], params[n];
    if front == [] {
      assert ParamsTree(params) == SetKey(EMPTY_TREE, last.0, Str(last.1));
    } else {
      ParamsTreeEntries(front);
    }
    PutAtEnd(TextEntries(front), last.0, Str(last.1));
    assert TextEntries(params) == TextEntries(front) + [Entry(last.0, Str(last.1))];
  }

  lemma {:induction false} PairsOfTexts(params: seq<(string, string)>)
    ensures CanonAll(TextEntries(params)) == TextEntries(params)
    ensures Pairs(TextEntries(params)) == params
  {
    if params != [] {
      PairsOfTexts(params[1..]);
      assert TextEntries(params)[1..] == TextEntries(params[1..]);
      assert params == [params[0]] + params[1..];
    }
  }

  lemma ParamsField(r: Request)
    requires ValidRequest(r) && r.params != []
    ensures var t := ParamsTree(r.params);
      Valid(t) && SignFree(t) && ToStringMap(Canon(t)) == r.params
  {
    ParamsTreeEntries(r.params);
    PairsOfTexts(r.params);
  }

  function Texts(ss: seq<string>): seq<Tree> {
    seq(|ss|, i requires 0 <= i < |ss| => Str(ss[i]))
  }

  lemma {:induction false} PeersTreeIsPushed(peers: seq<string>)
    requires peers != []
    ensures PeersTree(peers) == PushAll(Map([], true, 0), Texts(peers))
  {
    hide PushValue;
    var n := |peers| - 1;
    assert Texts(peers)[..n] == Texts(peers[..n]);
    PushOnNothing(Str(peers[n]));
    if n > 0 { PeersTreeIsPushed(peers[..n]); }
  }

  lemma PushOnNothing(child: Tree)
    ensures PushValue(EMPTY_TREE, child) == PushValue(Map([], true, 0), child)
  {
  }

  lemma HeldValues(t: Tree, children: seq<Tree>)
    requires HoldsInOrder(t, children)
    requires forall c | c in children :: Valid(c) && SignFree(c)
    ensures Valid(t) && SignFree(t)
  {
    forall e | e in t.entries ensures Valid(e.value) && SignFree(e.value) {
      var i :| 0 <= i < |t.entries| && t.entries[i] == e;
      var k: nat :| k < |children| && t.entries[i].key == Dec(k);
      LookupAt(t.entries, i);
      assert e.value == children[k] && children[k] in children;
    }
  }

  lemma PeersField(peers: seq<string>)
    requires peers != []
    ensures Valid(PeersTree(peers)) && SignFree(PeersTree(peers))
  {
    PeersTreeIsPushed(peers);
    PushAllHoldsInOrder(Texts(peers));
    HeldValues(PeersTree(peers), Texts(peers));
  }

  // ----- the whole job tree -----

  /** What the executor relies on, before the state is looked at. */
  ghost predicate JobFields(t: Tree, r: Request) {
    && t.Map? && Valid(t) && SignOnlyAt(t.entries, "connection_state")
    && Field(t, "type") == Str("dispatch") && Field(t, "connection_id") == Str(r.connection)
    && Field(t, "scope") == Str(r.scope) && Field(t, "is_binary") == Bool(r.isBinary)
    && Field(t, "is_text") == Bool(r.isText) && Field(t, "message_b64") == Str(Base64.Encode(r.message))
    && Field(t, "opcode") == Num(false, r.opcode as int * 1000000)
    && Lookup(t.entries, "connection_state") == r.state
  }

  lemma JobTreeFields(r: Request)
    requires ValidRequest(r)
    ensures JobFields(JobTree(r), r)
    ensures ToStringMap(Canon(Field(JobTree(r), "params"))) == r.params
    ensures Field(JobTree(r), "scope_connections") == PeersTree(r.peers)
  {
    hide SetKey, Lookup, Sorted, Base64.Encode, PlainJob, ParamsTree, PeersTree, Canon, ToStringMap;
    PlainJobFields(r);
    var t0 := PlainJob(r);
    var t1 := WithState(t0, r.state);
    if r.state.Some? { SetKeyFacts(t0, "connection_state", r.state.value); }
    assert JobFields(t1, r) && Lookup(t1.entries, "params") == None && Lookup(t1.entries, "scope_connections") == None;
    JobTreeRest(t1, r);
  }

  lemma JobTreeParams(t1: Tree, r: Request)
    requires ValidRequest(r) && JobFields(t1, r) && Lookup(t1.entries, "params") == None
    requires Lookup(t1.entries, "scope_connections") == None
    ensures var t2 := if r.params == [] then t1 else SetKey(t1, "params", ParamsTree(r.params));
      && JobFields(t2, r) && ToStringMap(Canon(Field(t2, "params"))) == r.params
      && Lookup(t2.entries, "scope_connections") == None
  {
    hide SetKey, Lookup, Sorted, Base64.Encode, ParamsTree, Canon, ToStringMap;
    if r.params == [] {
      EmptyStringMap();
    } else {
      ParamsField(r);
      SetKeyFacts(t1, "params", ParamsTree(r.params));
    }
  }

  lemma JobTreeRest(t1: Tree, r: Request)
    requires ValidRequest(r) && JobFields(t1, r) && Lookup(t1.entries, "params") == None
    requires Lookup(t1.entries, "scope_connections") == None
    ensures var t2 := if r.params == [] then t1 else SetKey(t1, "params", ParamsTree(r.params));
      var t3 := if r.peers == [] then t2 else SetKey(t2, "scope_connections", PeersTree(r.peers));
      && JobFields(t3, r) && ToStringMap(Canon(Field(t3, "params"))) == r.params
      && Field(t3, "scope_connections") == PeersTree(r.peers)
  {
    hide SetKey, Lookup, ParamsTree, PeersTree, Canon, ToStringMap, JobFields, Field;
    var t2 := if r.params == [] then t1 else SetKey(t1, "params", ParamsTree(r.params));
    JobTreeParams(t1, r);
    JobTreePeers(t2, r);
  }

  lemma JobTreePeers(t2: Tree, r: Request)
    requires JobFields(t2, r) && Lookup(t2.entries, "scope_connections") == None
    ensures var t3 := if r.peers == [] then t2 else SetKey(t2, "scope_connections", PeersTree(r.peers));
      && JobFields(t3, r) && Field(t3, "params") == Field(t2, "params")
      && Field(t3, "scope_connections") == PeersTree(r.peers)
  {
    hide SetKey, Lookup, Sorted, Base64.Encode, PeersTree;
    if r.peers == [] {
      NoPeers();
    } else {
      PeersField(r.peers);
      SetKeyFacts(t2, "scope_connections", PeersTree(r.peers));
    }
  }

  lemma NoPeers()
    ensures PeersTree([]) == EMPTY_TREE
  {
  }

  lemma EmptyStringMap()
    ensures ToStringMap(Canon(EMPTY_TREE)) == []
  {
  }

  predicate StateSignFree(state: Option<Tree>) {
    state.Some? ==> SignFree(state.value)
  }

  lemma JobSignFree(t: Tree, r: Request)
    requires JobFields(t, r)
    ensures SignFree(t) <==> StateSignFree(r.state)
  {
    if r.state.Some? {
      SignOnlyInState(t, r.state.value);
    } else {
      LookupAbsent(t.entries, "connection_state");
    }
  }

  // ----- the executor on a job of the broker -----

  /** What the handler of `r` has to be given.  The peers come in the order of their
      decimal names; a scope without any is read as one peer without a name. */
  function ExpectedEvent(r: Request): Event {
    Event(r.connection, r.scope, Some(r.opcode as nat), r.message, r.isBinary, r.isText,
          if r.peers == [] then [""] else InKeyOrder(r.peers),
          Canon(if r.state.Some? then r.state.value else EMPTY_TREE), r.params)
  }

  lemma PeersArrive(peers: seq<string>)
    ensures EachText(Canon(PeersTree(peers))) == if peers == [] then [""] else InKeyOrder(peers)
  {
    if peers != [] {
      hide KeyOrder, Canon, PushAll, PeersTree, Dec;
      PeersTreeIsPushed(peers);
      PushedEntries(Texts(peers));
      var es := EntriesBy(KeyOrder(|peers|), Texts(peers));
      assert forall i | 0 <= i < |es| :: es[i].value == Str(InKeyOrder(peers)[i]);
      TextsArrive(es, InKeyOrder(peers));
      EachOfCanon(PeersTree(peers));
    }
  }

  lemma EachOfCanon(t: Tree)
    requires t.Map?
    ensures EachText(Canon(t)) == TextsOf(CanonAll(t.entries))
  {
  }

  lemma {:induction false} TextsArrive(es: seq<Entry>, texts: seq<string>)
    requires |es| == |texts| && forall i | 0 <= i < |es| :: es[i].value == Str(texts[i])
    ensures TextsOf(CanonAll(es)) == texts
  {
    if es != [] {
      hide Canon, ToText;
      TextArrives(texts[0]);
      TextsArrive(es[1..], texts[1..]);
      assert CanonAll(es)[1..] == CanonAll(es[1..]);
      assert texts == [texts[0]] + texts[1..];
    }
  }

  lemma TextArrives(text: string)
    ensures ToText(Canon(Str(text))) == text
  {
  }

  /** A whole number is read back from its text. */
  lemma WordArrives(n: nat, size: nat)
    requires size > 0
    ensures ToWord(Canon(Num(false, n * 1000000)), size) == Some(n % size)
  {
    NumTextReadsBack(false, n * 1000000);
    NumTextSplits(n);
    DecReadsBack(n);
  }

  lemma NumTextSplits(n: nat)
    ensures var s := NumText(false, n * 1000000);
      Find(s, '.', 0) == |Dec(n)| < |s| && s[..|Dec(n)|] == Dec(n) && AllDigits(s[|Dec(n)| + 1..])
  {
    hide Dec, PadTo, Find;
    var s, d := NumText(false, n * 1000000), Dec(n);
    var zeros := PadTo(Dec(0), 6);
    assert n * 1000000 / 1000000 == n && n * 1000000 % 1000000 == 0;
    assert s == d + "." + zeros;
    assert s[|d|] == '.' && s[..|d|] == d && s[|d| + 1..] == zeros;
    assert forall i | 0 <= i < |d| :: s[i] == d[i] && s[i] != '.';
    FindFirst(s, '.', 0, |d|);
  }

  lemma FindFirst(s: string, c: char, at: nat, n: nat)
    requires at <= n < |s| && s[n] == c && forall i | at <= i < n :: s[i] != c
    ensures Find(s, c, at) == n
  {
    hide Find;
    var m := Find(s, c, at);
    assert !(m < n) && !(n < m);
  }

  /** The executor runs the handler on exactly the message that was dispatched,
      and answers with one result line, if and only if the state of the
      connection holds no negative number.  Otherwise it skips the job without a
      word or never comes back from reading it. */
  lemma JobRunsIff(r: Request, a: Answer)
    requires ValidRequest(r)
    ensures StateSignFree(r.state) ==>
      ProcessJobLine(JobBody(r), a) == Handled(ExpectedEvent(r), ResponseBody(r.connection, a))
    ensures !StateSignFree(r.state) ==> ProcessJobLine(JobBody(r), a) in {Ignored, Hangs}
    ensures NoNewline(JobBody(r))
  {
    hide *;
    var t := JobTree(r);
    JobTreeFields(r);
    JobSignFree(t, r);
    JobIsLine(r);
    if StateSignFree(r.state) {
      JobDecodes(r, a);
    } else {
      SignedJobIsLost(r, a);
    }
  }

  lemma JobIsLine(r: Request)
    requires JobFields(JobTree(r), r)
    ensures NoNewline(JobBody(r)) && Trim(JobBody(r)) == JobBody(r) && JobBody(r) != ""
  {
    hide JobTree, JsonEncode, Trim, Valid;
    JsonEncodeIs(JobTree(r));
    EncodeHasNoNewline(JobTree(r));
    TrimKeepsObject(JobTree(r));
  }

  lemma JsonEncodeIs(t: Tree)
    ensures JsonEncode(t) == Encode(t, '"')
  {
  }

  lemma JobDecodes(r: Request, a: Answer)
    requires ValidRequest(r) && StateSignFree(r.state)
    ensures ProcessJobLine(JobBody(r), a) == Handled(ExpectedEvent(r), ResponseBody(r.connection, a))
  {
    hide JobTree, JsonEncode, JsonDecode, Trim, Valid, SignFree, Canon, Lookup, ResponseBody, Base64.Encode,
      Base64.Decode, Field, EventOf;
    var t := JobTree(r);
    JobTreeFields(r);
    JobSignFree(t, r);
    JobIsLine(r);
    RoundTripIff(t);
    Base64.RoundTrip(r.message);
    FieldCanon(t, "type");
    FieldCanon(t, "message_b64");
    CanonScalars();
    EventArrives(t, r);
  }

  lemma EventArrives(t: Tree, r: Request)
    requires JobFields(t, r) && Field(t, "scope_connections") == PeersTree(r.peers)
    requires ToStringMap(Canon(Field(t, "params"))) == r.params
    ensures EventOf(Canon(t), r.message) == ExpectedEvent(r)
  {
    hide Valid, Canon, Lookup, ToStringMap, Base64.Encode, Field, ToWord, EachText, InKeyOrder, PeersTree;
    FieldCanon(t, "connection_id");
    FieldCanon(t, "scope");
    FieldCanon(t, "is_binary");
    FieldCanon(t, "is_text");
    FieldCanon(t, "connection_state");
    FieldCanon(t, "params");
    FieldCanon(t, "opcode");
    FieldCanon(t, "scope_connections");
    WordArrives(r.opcode as nat, 0x100);
    PeersArrive(r.peers);
    CanonScalars();
    StateField(t, r);
  }

  lemma CanonScalars()
    ensures forall s :: Canon(Str(s)) == Str(s)
    ensures forall b :: Canon(Bool(b)) == Bool(b)
  {
  }

  lemma StateField(t: Tree, r: Request)
    requires JobFields(t, r)
    ensures Field(t, "connection_state") == if r.state.Some? then r.state.value else EMPTY_TREE
  {
  }

  /** Decoding stops at the sign; "type" sorts after "connection_state" and is
      lost with everything else behind it. */
  lemma SignedJobIsLost(r: Request, a: Answer)
    requires ValidRequest(r) && !StateSignFree(r.state)
    ensures ProcessJobLine(JobBody(r), a) in {Ignored, Hangs}
  {
    hide JobTree, JsonEncode, JsonDecode, Trim, Valid, SignFree, ResponseBody, Base64.Encode, Base64.Decode, Lookup;
    var t := JobTree(r);
    JobTreeFields(r);
    JobSignFree(t, r);
    JobIsLine(r);
    SignedMapLosesType(t);
  }

  lemma SignedMapLosesType(t: Tree)
    requires t.Map? && Valid(t) && !SignFree(t)
    requires SignOnlyAt(t.entries, "connection_state") && Lookup(t.entries, "type") != None
    ensures match JsonDecode(JsonEncode(t))
      case None => true
      case Some(d) => Field(d, "type") == EMPTY_TREE
  {
    TypedMapIsNoList(t);
    OpenObject(t, '"', "");
    assert JsonEncode(t) + "" == JsonEncode(t);
    DecodePairsSigned(t.entries, [], '"', "");
    var d := DecodeValue(JsonEncode(t));
    assert CutShort(d, t.entries, []);
    if d.Done? {
      var k := FirstSigned(t.entries);
      var v :| CutAt(d.tree, t.entries, [], k, v);
      CutMapHasNoType(d.tree, t.entries, k, v);
    }
  }

  lemma TypedMapIsNoList(t: Tree)
    requires t.Map? && Lookup(t.entries, "type") != None
    ensures !IsList(t)
  {
    LookupAbsent(t.entries, "type");
    var i :| 0 <= i < |t.entries| && t.entries[i].key == "type";
    assert Dec(i)[0] != 't' by { assert IsDigit(Dec(i)[0]); }
  }

  lemma CutMapHasNoType(t: Tree, es: seq<Entry>, k: nat, v: Tree)
    requires AllValid(es) && SignOnlyAt(es, "connection_state")
    requires k < |es| && !SignFree(es[k].value) && CutAt(t, es, [], k, v)
    ensures Field(t, "type") == EMPTY_TREE
  {
    assert es[k] in es;
    assert es[k].key == "connection_state";
    assert Less("connection_state", "type");
    var cut := [] + CanonAll(es[..k]) + [Entry(es[k].key, v)];
    forall i | 0 <= i < |cut| ensures cut[i].key != "type" {
      if i < k {
        assert cut[i].key == es[i].key;
        LessTransitive(es[i].key, "connection_state", "type");
        LessIrreflexive("type");
      }
    }
    LookupAbsent(cut, "type");
  }

  // ----- the broker on a result of the executor -----

  lemma MessageCommandFields(action: string, message: seq<byte>, binary: bool)
    ensures var t := MessageCommand(action, message, binary);
      && t.Map? && AllValid(t.entries) && AllSignFree(t.entries)
      && Field(t, "action") == Str(action) && Field(t, "binary") == Bool(binary)
      && Field(t, "message_b64") == Str(Base64.Encode(message))
  {
    hide SetKey, Lookup, Sorted, Base64.Encode;
    var t1 := SetKey(EMPTY_TREE, "action", Str(action));
    SetKeyFacts(EMPTY_TREE, "action", Str(action));
    var t2 := SetKey(t1, "binary", Bool(binary));
    SetKeyFacts(t1, "binary", Bool(binary));
    SetKeyFacts(t2, "message_b64", Str(Base64.Encode(message)));
  }

  /** The branches of `websocket_exec_apply_command` that pass a payload on, and
      the addressee of a close. */
  datatype Applied =
    | DoBroadcast(scope: string, payload: seq<byte>, binary: bool)
    | DoSend(connection: string, payload: seq<byte>, binary: bool)
    | DoClose(connection: string, status: Option<nat>, reason: string)
    | DoNothing

  function ApplyCommand(c: Tree): Applied {
    var action := ToText(Field(c, "action"));
    var payload := Base64.Decode(ToText(Field(c, "message_b64")));
    var binary := Field(c, "binary") == Bool(true);
    if action == "broadcast" then
      if payload.Some? then DoBroadcast(ToText(Field(c, "scope")), payload.value, binary) else DoNothing
    else if action == "send_to" then
      if payload.Some? then DoSend(ToText(Field(c, "connection_id")), payload.value, binary) else DoNothing
    else if action == "close" then DoClose(ToText(Field(c, "connection_id")),
        ToWord(Field(c, "status_code"), 0x1_0000), ToText(Field(c, "reason")))
    else DoNothing
  }

  function Meant(c: Command): Applied {
    match c
    case Broadcast(scope, m, b) => DoBroadcast(scope, m, b)
    case SendTo(connection, m, b) => DoSend(connection, m, b)
    case CloseConnection(connection, status, reason) => DoClose(connection, Some(status % 0x1_0000), reason)
  }

  /** A command does at the broker what the handler asked for. */
  lemma CommandArrives(c: Command)
    ensures Valid(CommandTree(c)) && SignFree(CommandTree(c)) && CommandTree(c).Map?
    ensures ApplyCommand(Canon(CommandTree(c))) == Meant(c)
  {
    hide SetKey, Lookup, Sorted, Base64.Encode, Base64.Decode, MessageCommand, Canon, Field, ToWord;
    var t := CommandTree(c);
    assert Valid(t) && SignFree(t) && t.Map? && CommandFields(t, c) by {
      match c {
        case Broadcast(scope, m, b) =>
          MessageCommandFields("broadcast", m, b);
          AddedField(MessageCommand("broadcast", m, b), "scope", Str(scope));
        case SendTo(connection, m, b) =>
          MessageCommandFields("send_to", m, b);
          AddedField(MessageCommand("send_to", m, b), "connection_id", Str(connection));
        case CloseConnection(connection, status, reason) =>
          CloseFields(connection, status, reason);
      }
    }
    FieldCanon(t, "action");
    FieldCanon(t, "binary");
    FieldCanon(t, "message_b64");
    FieldCanon(t, "scope");
    FieldCanon(t, "connection_id");
    FieldCanon(t, "reason");
    FieldCanon(t, "status_code");
    CanonScalars();
    if c.CloseConnection? { WordArrives(c.status, 0x1_0000); }
    if !c.CloseConnection? { Base64.RoundTrip(c.message); }
  }

  ghost predicate CommandFields(t: Tree, c: Command) {
    match c
    case Broadcast(scope, m, b) =>
      && Field(t, "action") == Str("broadcast") && Field(t, "scope") == Str(scope)
      && Field(t, "message_b64") == Str(Base64.Encode(m)) && Field(t, "binary") == Bool(b)
    case SendTo(connection, m, b) =>
      && Field(t, "action") == Str("send_to") && Field(t, "connection_id") == Str(connection)
      && Field(t, "message_b64") == Str(Base64.Encode(m)) && Field(t, "binary") == Bool(b)
    case CloseConnection(connection, status, reason) =>
      && Field(t, "action") == Str("close") && Field(t, "connection_id") == Str(connection)
      && Field(t, "reason") == Str(reason) && Field(t, "status_code") == Num(false, status * 1000000)
  }

  lemma AddedField(t: Tree, key: string, value: Tree)
    requires t.Map? && AllValid(t.entries) && AllSignFree(t.entries) && Valid(value) && SignFree(value)
    ensures var r := SetKey(t, key, value);
      && AllValid(r.entries) && AllSignFree(r.entries) && Valid(r) && SignFree(r)
      && forall k :: Field(r, k) == if k == key then value else Field(t, k)
  {
    SetKeyFacts(t, key, value);
  }

  lemma CloseFields(connection: string, status: nat, reason: string)
    ensures var c := CloseConnection(connection, status, reason);
      var t := CommandTree(c);
      Valid(t) && SignFree(t) && t.Map? && CommandFields(t, c)
  {
    hide SetKey, Lookup, Sorted;
    var t1 := SetKey(EMPTY_TREE, "action", Str("close"));
    SetKeyFacts(EMPTY_TREE, "action", Str("close"));
    var t2 := SetKey(t1, "connection_id", Str(connection));
    SetKeyFacts(t1, "connection_id", Str(connection));
    var t3 := SetKey(t2, "status_code", Num(false, status * 1000000));
    SetKeyFacts(t2, "status_code", Num(false, status * 1000000));
    SetKeyFacts(t3, "reason", Str(reason));
  }

  function CommandTrees(cs: seq<Command>): seq<Tree> {
    seq(|cs|, i requires 0 <= i < |cs| => CommandTree(cs[i]))
  }

  lemma {:induction false} CommandsTreeIsPushed(cs: seq<Command>)
    requires cs != []
    ensures CommandsTree(cs) == PushAll(Map([], true, 0), CommandTrees(cs))
  {
    hide CommandTree, PushValue;
    var n := |cs| - 1;
    assert CommandTrees(cs)[..n] == CommandTrees(cs[..n]);
    PushOnNothing(CommandTree(cs[n]));
    if n > 0 { CommandsTreeIsPushed(cs[..n]); }
  }

  lemma CommandsField(cs: seq<Command>)
    ensures Valid(CommandsTree(cs)) && SignFree(CommandsTree(cs))
  {
    if cs != [] {
      hide CommandTree, Valid, SignFree, CommandsTree;
      CommandsTreeIsPushed(cs);
      PushAllHoldsInOrder(CommandTrees(cs));
      forall c | c in CommandTrees(cs) ensures Valid(c) && SignFree(c) {
        var i :| 0 <= i < |cs| && CommandTrees(cs)[i] == c;
        CommandArrives(cs[i]);
      }
      HeldValues(CommandsTree(cs), CommandTrees(cs));
    }
  }

  /** `result["commands"].each(...)`: every entry in key order; a scalar once. */
  function ApplyCommands(t: Tree): seq<Applied> {
    if t.Map? then ApplyEntries(t.entries) else [ApplyCommand(t)]
  }

  function ApplyEntries(es: seq<Entry>): seq<Applied> {
    if es == [] then [] else [ApplyCommand(es[0].value)] + ApplyEntries(es[1..])
  }

  /** Any number of commands is applied in the order of their decimal names. */
  lemma CommandsInKeyOrder(cs: seq<Command>)
    ensures ApplyCommands(Canon(CommandsTree(cs))) == if cs == [] then [DoNothing] else MeantAll(InKeyOrder(cs))
  {
    if cs == [] { return; }
    hide *;
    CommandTreesAt(cs);
    CommandsTreeIsPushed(cs);
    PushedEntries(CommandTrees(cs));
    EntriesInKeyOrder(cs);
    ApplyNumbered(EntriesBy(KeyOrder(|cs|), CommandTrees(cs)), InKeyOrder(cs));
    ApplyCanonMap(CommandsTree(cs));
  }

  lemma EntriesInKeyOrder(cs: seq<Command>)
    ensures forall i | 0 <= i < |cs| :: KeyOrder(|cs|)[i] < |CommandTrees(cs)|
    ensures var es := EntriesBy(KeyOrder(|cs|), CommandTrees(cs));
      |es| == |cs| && forall i | 0 <= i < |es| :: es[i].value == CommandTree(InKeyOrder(cs)[i])
  {
    hide KeyOrder, CommandTree;
    KeyOrderBelow(|cs|);
  }

  lemma {:induction false} MeantAt(cs: seq<Command>, i: nat)
    requires i < |cs|
    ensures |MeantAll(cs)| == |cs| && MeantAll(cs)[i] == Meant(cs[i])
  {
    hide Meant;
    if i > 0 {
      MeantAt(cs[1..], i - 1);
    } else if |cs| > 1 {
      MeantAt(cs[1..], 0);
    }
  }

  /** They are applied in the order of issue if and only if the places that the
      order of names changes hold commands that do the same. */
  lemma CommandsInOrderIff(cs: seq<Command>)
    requires cs != []
    ensures ApplyCommands(Canon(CommandsTree(cs))) == MeantAll(cs) <==>
      forall i | 0 <= i < |cs| :: Meant(InKeyOrder(cs)[i]) == Meant(cs[i])
  {
    hide Meant, KeyOrder, InKeyOrder, ApplyCommands, CommandsTree;
    CommandsInKeyOrder(cs);
    forall i | 0 <= i < |cs|
      ensures |MeantAll(cs)| == |cs| == |MeantAll(InKeyOrder(cs))|
      ensures MeantAll(cs)[i] == Meant(cs[i]) && MeantAll(InKeyOrder(cs))[i] == Meant(InKeyOrder(cs)[i])
    {
      MeantAt(cs, i);
      MeantAt(InKeyOrder(cs), i);
    }
    MeantAt(cs, 0);
    MeantAt(InKeyOrder(cs), 0);
  }

  /** Up to ten commands are applied in the order in which they were issued. */
  lemma CommandsInOrder(cs: seq<Command>)
    requires |cs| <= 10
    ensures ApplyCommands(Canon(CommandsTree(cs))) == if cs == [] then [DoNothing] else MeantAll(cs)
  {
    CommandsInKeyOrder(cs);
    ShortInOrder(cs);
  }

  lemma ApplyCanonMap(t: Tree)
    requires t.Map?
    ensures ApplyCommands(Canon(t)) == ApplyEntries(CanonAll(t.entries))
  {
  }

  lemma CommandTreesAt(cs: seq<Command>)
    ensures |CommandTrees(cs)| == |cs| && |Numbered(CommandTrees(cs))| == |cs|
    ensures forall i | 0 <= i < |cs| :: CommandTrees(cs)[i] == CommandTree(cs[i]) == Numbered(CommandTrees(cs))[i].value
  {
  }

  function MeantAll(cs: seq<Command>): seq<Applied> {
    if cs == [] then [] else [Meant(cs[0])] + MeantAll(cs[1..])
  }

  lemma {:induction false} ApplyNumbered(es: seq<Entry>, cs: seq<Command>)
    requires |es| == |cs| && forall i | 0 <= i < |es| :: es[i].value == CommandTree(cs[i])
    ensures ApplyEntries(CanonAll(es)) == MeantAll(cs)
  {
    if es != [] {
      hide ApplyCommand, Canon, CommandTree, Meant;
      CommandArrives(cs[0]);
      ApplyNumbered(es[1..], cs[1..]);
      assert CanonAll(es)[1..] == CanonAll(es[1..]);
    }
  }

  /** Beyond ten, the command issued eleventh is applied third, right behind the
      first two. */
  lemma ManyCommandsOutOfOrder(cs: seq<Command>)
    requires |cs| > 10
    ensures var applied := ApplyCommands(Canon(CommandsTree(cs)));
      && |applied| == |cs| && applied[2] == Meant(cs[10])
      && (Meant(cs[10]) != Meant(cs[2]) ==> applied != MeantAll(cs))
  {
    hide Meant, KeyOrder, InKeyOrder, ApplyCommands, CommandsTree;
    CommandsInKeyOrder(cs);
    EleventhIsThird(cs);
    MeantAt(InKeyOrder(cs), 2);
    MeantAt(cs, 2);
  }

  /** Messages to one connection, numbered. */
  function Numbers(n: nat): seq<Command> {
    seq(n, i requires 0 <= i < n => SendTo("peer", [(i % 256) as byte], true))
  }

  lemma ElevenCommandsOutOfOrder()
    ensures ApplyCommands(Canon(CommandsTree(Numbers(11)))) != MeantAll(Numbers(11))
  {
    hide ApplyCommands, CommandsTree, MeantAll, Canon;
    assert Numbers(11)[10] == SendTo("peer", [10 as byte], true) && Numbers(11)[2] == SendTo("peer", [2 as byte], true);
    ManyCommandsOutOfOrder(Numbers(11));
  }

  lemma IndexOfKey(es: seq<Entry>, key: string) returns (i: nat)
    requires Sorted(es) && Lookup(es, key) != None
    ensures i < |es| && es[i].key == key && Lookup(es, key) == Some(es[i].value)
  {
    LookupAbsent(es, key);
    i :| 0 <= i < |es| && es[i].key == key;
    LookupAt(es, i);
  }

  ghost predicate ResponseFields(t: Tree, connection: string, a: Answer) {
    && t.Map? && Valid(t) && SignOnlyAt(t.entries, "connection_state")
    && Field(t, "type") == Str("result") && Field(t, "connection_id") == Str(connection)
    && Lookup(t.entries, "connection_state") == Some(a.state)
    && Field(t, "commands") == CommandsTree(a.commands)
  }

  lemma ResponseTreeFields(connection: string, a: Answer)
    requires Valid(a.state)
    ensures ResponseFields(ResponseTree(connection, a), connection, a)
    ensures SignFree(ResponseTree(connection, a)) <==> SignFree(a.state)
  {
    hide SetKey, Lookup, Sorted, CommandsTree, Valid, SignFree;
    var t1 := SetKey(EMPTY_TREE, "type", Str("result"));
    var t2 := SetKey(t1, "connection_id", Str(connection));
    var t3 := SetKey(t2, "connection_state", a.state);
    var t4 := SetKey(t3, "commands", CommandsTree(a.commands));
    StrIsPlain();
    CommandsField(a.commands);
    StartedStep(EMPTY_TREE, "type", Str("result"));
    StartedStep(t1, "connection_id", Str(connection));
    StartedStep(t2, "connection_state", a.state);
    StartedStep(t3, "commands", CommandsTree(a.commands));
    StartedIsValid(t4);
    LookupIsField(t4, "connection_state");
    SignOnlyInState(t4, a.state);
  }

  lemma StrIsPlain()
    ensures forall s :: Valid(Str(s)) && SignFree(Str(s))
  {
  }

  /** A tree under assembly whose state alone may hold a negative number. */
  ghost predicate Started(t: Tree) {
    t.Map? ==> AllValid(t.entries) && SignOnlyAt(t.entries, "connection_state")
  }

  lemma StartedStep(t: Tree, key: string, value: Tree)
    requires Started(t) && Valid(value) && (key == "connection_state" || SignFree(value))
    ensures var r := SetKey(t, key, value);
      && Started(r) && Lookup(r.entries, key) == Some(value)
      && forall k :: k != key ==> Lookup(r.entries, k) == if t.Map? then Lookup(t.entries, k) else None
  {
    hide Valid, SignFree;
    SetKeyFacts(t, key, value);
  }

  lemma StartedIsValid(t: Tree)
    requires Started(t)
    ensures Valid(t)
  {
  }

  lemma LookupIsField(t: Tree, key: string)
    requires t.Map? && Lookup(t.entries, key) != None
    ensures Some(Field(t, key)) == Lookup(t.entries, key)
  {
  }

  lemma SignOnlyInState(t: Tree, state: Tree)
    requires t.Map? && Sorted(t.entries) && SignOnlyAt(t.entries, "connection_state")
    requires Lookup(t.entries, "connection_state") == Some(state)
    ensures SignFree(t) <==> SignFree(state)
  {
    hide Lookup, Sorted;
    var i := IndexOfKey(t.entries, "connection_state");
    assert t.entries[i] in t.entries;
    forall j | 0 <= j < |t.entries| && t.entries[j].key == "connection_state" ensures t.entries[j].value == state {
      LookupAt(t.entries, j);
    }
  }

  /** The broker applies a result, naming the connection of the job, if and only
      if the state the handler left behind holds no negative number.  Otherwise
      the line has no effect, or the broker itself does not come back from it. */
  lemma ResultAppliesIff(connection: string, a: Answer)
    requires Valid(a.state)
    ensures SignFree(a.state) ==>
      ReadResultLine(ResponseBody(connection, a)) == Result(connection, Canon(a.state), Canon(CommandsTree(a.commands)))
    ensures !SignFree(a.state) ==> ReadResultLine(ResponseBody(connection, a)) in {NoResult, BrokerHangs}
    ensures NoNewline(ResponseBody(connection, a)) && ResponseBody(connection, a) != ""
  {
    hide ResponseTree, JsonEncode, JsonDecode, Trim, Valid, SignFree, Canon, Lookup, Field, CommandsTree;
    var t := ResponseTree(connection, a);
    ResponseTreeFields(connection, a);
    JsonEncodeIs(t);
    EncodeHasNoNewline(t);
    TrimKeepsObject(t);
    CanonScalars();
    ResultStateField(t, connection, a);
    if SignFree(a.state) {
      RoundTripIff(t);
      FieldCanon(t, "type");
      FieldCanon(t, "connection_id");
      FieldCanon(t, "connection_state");
      FieldCanon(t, "commands");
    } else {
      SignedMapLosesType(t);
    }
  }

  lemma ResultStateField(t: Tree, connection: string, a: Answer)
    requires ResponseFields(t, connection, a)
    ensures Field(t, "connection_state") == a.state && Lookup(t.entries, "type") != None
  {
  }
}
