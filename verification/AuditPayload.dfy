/**
 The canonical JSON payload that `compute_audit_hash` digests. `serde_json` writes
 it compactly, object keys ascending, strings escaped as in section 7 of RFC 8259.
 */
module AuditPayload {
  import opened Wrappers

  /** `AuditHashInput`; the timestamp is its RFC 3339 text. */
  datatype HashInput = HashInput(
    id: string, callerService: string, targetService: string, action: string, algorithm: string,
    status: string, reason: Option<string>, prevHash: string, timestamp: string,
    requestId: Option<string>, operationId: Option<string>, targetId: Option<string>,
    metadata: Option<string>)

  type Digest = string -> string
  type Member = (string, Option<string>)

  function HexDigit(n: int): char
    requires 0 <= n < 16
  {
    "0123456789abcdef"[n]
  }

  function EscapeChar(c: char): string {
    var n := c as int;
    if c == '\"' then "\\\""
    else if c == '\\' then "\\\\"
    else if n == 8 then "\\b"
    else if n == 9 then "\\t"
    else if n == 10 then "\\n"
    else if n == 12 then "\\f"
    else if n == 13 then "\\r"
    else if n < 32 then ['\\', 'u', '0', '0', HexDigit(n / 16), HexDigit(n % 16)]
    else [c]
  }

  // Each writer below takes the text that follows, as the serialiser appends to one buffer.

  function Escaped(s: string, rest: string): string {
    if s == "" then rest else EscapeChar(s[0]) + Escaped(s[1..], rest)
  }

  function Quoted(s: string, rest: string): string {
    "\"" + Escaped(s, "\"" + rest)
  }

  function ValueText(v: Option<string>, rest: string): string {
    if v.None? then "null" + rest else Quoted(v.value, rest)
  }

  function MemberText(m: Member, rest: string): string {
    Quoted(m.0, ":" + ValueText(m.1, rest))
  }

  function MoreMembers(ms: seq<Member>): string {
    if ms == [] then "}" else "," + MemberText(ms[0], MoreMembers(ms[1..]))
  }

  function ObjectText(ms: seq<Member>): string {
    if ms == [] then "{}" else "{" + MemberText(ms[0], MoreMembers(ms[1..]))
  }

  function HexValue(c: char): int {
    if '0' <= c <= '9' then c as int - 48 else c as int - 87
  }

  /** The character that an escaped text starts with, and how many characters it takes. */
  function ReadChar(t: string): (char, nat)
    requires |t| >= 6
  {
    if t[0] != '\\' then (t[0], 1)
    else if t[1] == 'b' then (8 as char, 2)
    else if t[1] == 't' then (9 as char, 2)
    else if t[1] == 'n' then (10 as char, 2)
    else if t[1] == 'f' then (12 as char, 2)
    else if t[1] == 'r' then (13 as char, 2)
    else if t[1] == 'u' then
      var n := 16 * HexValue(t[4]) + HexValue(t[5]);
      (if 0 <= n < 256 then n as char else t[1], 6)
    else (t[1], 2)
  }

  lemma HexRoundTrip(n: int)
    requires 0 <= n < 16
    ensures HexValue(HexDigit(n)) == n
  {
    assert n == 0 || n == 1 || n == 2 || n == 3 || n == 4 || n == 5 || n == 6 || n == 7 || n == 8 || n == 9 ||
           n == 10 || n == 11 || n == 12 || n == 13 || n == 14 || n == 15;
  }

  lemma ReadEscaped(c: char, x: string)
    requires |x| >= 6
    ensures ReadChar(EscapeChar(c) + x) == (c, |EscapeChar(c)|)
  {
    var n := c as int;
    if n < 32 {
      HexRoundTrip(n / 16);
      HexRoundTrip(n % 16);
    }
  }

  /** No escaped character starts another, so escaped text splits in one way only. */
  lemma EscapeCharPrefixFree(c: char, d: char, x: string, y: string)
    requires EscapeChar(c) + x == EscapeChar(d) + y
    ensures c == d && x == y
  {
    var pad := "      ";
    assert EscapeChar(c) + (x + pad) == EscapeChar(c) + x + pad == EscapeChar(d) + (y + pad);
    ReadEscaped(c, x + pad);
    ReadEscaped(d, y + pad);
    var n := |EscapeChar(c)|;
    assert x == (EscapeChar(c) + x)[n..] && y == (EscapeChar(d) + y)[n..];
  }

  lemma DropPrefix(p: string, x: string, y: string)
    requires p + x == p + y
    ensures x == y
  {
    assert x == (p + x)[|p|..] && y == (p + y)[|p|..];
  }

  lemma EscapeCharNotQuote(c: char, x: string, y: string)
    ensures EscapeChar(c) + x != "\"" + y
  {
    assert (EscapeChar(c) + x)[0] == EscapeChar(c)[0];
  }

  /** Text up to the first unescaped quote determines the string and what follows. */
  lemma {:induction false} EscapedInjective(s: string, t: string, x: string, y: string)
    requires Escaped(s, "\"" + x) == Escaped(t, "\"" + y)
    ensures s == t && x == y
    decreases |s|
  {
    if s == "" && t == "" {
      DropPrefix("\"", x, y);
    } else if s == "" {
      EscapeCharNotQuote(t[0], Escaped(t[1..], "\"" + y), x);
      assert false;
    } else if t == "" {
      EscapeCharNotQuote(s[0], Escaped(s[1..], "\"" + x), y);
      assert false;
    } else {
      EscapeCharPrefixFree(s[0], t[0], Escaped(s[1..], "\"" + x), Escaped(t[1..], "\"" + y));
      EscapedInjective(s[1..], t[1..], x, y);
      assert s == [s[0]] + s[1..] && t == [t[0]] + t[1..];
    }
  }

  lemma QuotedInjective(s: string, t: string, x: string, y: string)
    requires Quoted(s, x) == Quoted(t, y)
    ensures s == t && x == y
  {
    DropPrefix("\"", Escaped(s, "\"" + x), Escaped(t, "\"" + y));
    EscapedInjective(s, t, x, y);
  }

  /** A null is told apart from every string, the empty one included. */
  lemma ValueInjective(v: Option<string>, w: Option<string>, x: string, y: string)
    requires ValueText(v, x) == ValueText(w, y)
    ensures v == w && x == y
  {
    assert v.Some? ==> ValueText(v, x)[0] == '\"';
    assert w.Some? ==> ValueText(w, y)[0] == '\"';
    if v.None? {
      DropPrefix("null", x, y);
    } else {
      QuotedInjective(v.value, w.value, x, y);
    }
  }

  lemma MemberInjective(m: Member, n: Member, x: string, y: string)
    requires MemberText(m, x) == MemberText(n, y)
    ensures m == n && x == y
  {
    QuotedInjective(m.0, n.0, ":" + ValueText(m.1, x), ":" + ValueText(n.1, y));
    DropPrefix(":", ValueText(m.1, x), ValueText(n.1, y));
    ValueInjective(m.1, n.1, x, y);
  }

  lemma {:induction false} MoreMembersInjective(ms: seq<Member>, ns: seq<Member>)
    requires MoreMembers(ms) == MoreMembers(ns)
    ensures ms == ns
    decreases |ms|
  {
    assert MoreMembers(ms)[0] == if ms == [] then '}' else ',';
    assert MoreMembers(ns)[0] == if ns == [] then '}' else ',';
    if ms != [] {
      var x, y := MoreMembers(ms[1..]), MoreMembers(ns[1..]);
      DropPrefix(",", MemberText(ms[0], x), MemberText(ns[0], y));
      MemberInjective(ms[0], ns[0], x, y);
      MoreMembersInjective(ms[1..], ns[1..]);
      assert ms == [ms[0]] + ms[1..] && ns == [ns[0]] + ns[1..];
    }
  }

  datatype Key = Action | Algorithm | CallerService | Id | Metadata | OperationId | PrevHash
    | Reason | RequestId | Status | TargetId | TargetService | Timestamp

  function Name(k: Key): string {
    match k
    case Action => "action" case Algorithm => "algorithm" case CallerService => "caller_service"
    case Id => "id" case Metadata => "metadata" case OperationId => "operation_id"
    case PrevHash => "prev_hash" case Reason => "reason" case RequestId => "request_id"
    case Status => "status" case TargetId => "target_id" case TargetService => "target_service"
    case Timestamp => "timestamp"
  }

  /** The keys in the order a `BTreeMap` yields them. */
  const KEYS: seq<Key> := [Action, Algorithm, CallerService, Id, Metadata, OperationId, PrevHash,
    Reason, RequestId, Status, TargetId, TargetService, Timestamp]

  function Field(i: HashInput, k: Key): Option<string> {
    match k
    case Action => Some(i.action) case Algorithm => Some(i.algorithm)
    case CallerService => Some(i.callerService) case Id => Some(i.id) case Metadata => i.metadata
    case OperationId => i.operationId case PrevHash => Some(i.prevHash) case Reason => i.reason
    case RequestId => i.requestId case Status => Some(i.status) case TargetId => i.targetId
    case TargetService => Some(i.targetService) case Timestamp => Some(i.timestamp)
  }

  function Members(i: HashInput): (ms: seq<Member>)
    ensures |ms| == |KEYS|
  {
    seq(|KEYS|, n requires 0 <= n < |KEYS| => (Name(KEYS[n]), Field(i, KEYS[n])))
  }

  function Listed(i: HashInput): seq<Member> {
    [("action", Some(i.action)), ("algorithm", Some(i.algorithm)), ("caller_service", Some(i.callerService)),
     ("id", Some(i.id)), ("metadata", i.metadata), ("operation_id", i.operationId),
     ("prev_hash", Some(i.prevHash)), ("reason", i.reason), ("request_id", i.requestId),
     ("status", Some(i.status)), ("target_id", i.targetId), ("target_service", Some(i.targetService)),
     ("timestamp", Some(i.timestamp))]
  }

  lemma MembersListed(i: HashInput)
    ensures Members(i) == Listed(i)
  {
    forall n | 0 <= n < 13 ensures Members(i)[n] == Listed(i)[n] {
    }
  }

  lemma MembersDetermine(a: HashInput, b: HashInput)
    requires Members(a)[0] == Members(b)[0] && Members(a)[1..] == Members(b)[1..]
    ensures a == b
  {
    MembersListed(a);
    MembersListed(b);
    hide Members;
    var ms, ns := Listed(a), Listed(b);
    assert ms == [ms[0]] + ms[1..] && ns == [ns[0]] + ns[1..];
    assert ms[0] == ns[0] && ms[1] == ns[1] && ms[2] == ns[2] && ms[3] == ns[3] && ms[4] == ns[4];
    assert ms[5] == ns[5] && ms[6] == ns[6] && ms[7] == ns[7] && ms[8] == ns[8] && ms[9] == ns[9];
    assert ms[10] == ns[10] && ms[11] == ns[11] && ms[12] == ns[12];
  }

  function Payload(i: HashInput): string {
    ObjectText(Members(i))
  }

  // The same text as RFC 8259 puts it, without the buffer: strings, members, an object of members.

  function JsonString(s: string): string {
    "\"" + JsonChars(s) + "\""
  }

  function JsonChars(s: string): string {
    if s == "" then "" else EscapeChar(s[0]) + JsonChars(s[1..])
  }

  function JsonMember(m: Member): string {
    JsonString(m.0) + ":" + if m.1.Some? then JsonString(m.1.value) else "null"
  }

  function JsonMembers(ms: seq<Member>): string {
    if ms == [] then ""
    else if |ms| == 1 then JsonMember(ms[0])
    else JsonMember(ms[0]) + "," + JsonMembers(ms[1..])
  }

  lemma {:induction false} EscapedIsJson(s: string, rest: string)
    ensures Escaped(s, rest) == JsonChars(s) + rest
  {
    if s != "" {
      EscapedIsJson(s[1..], rest);
    }
  }

  lemma StringIsJson(s: string, rest: string)
    ensures Quoted(s, rest) == JsonString(s) + rest
  {
    hide JsonChars;
    hide Escaped;
    var quote, cs := "\"", JsonChars(s);
    EscapedIsJson(s, quote + rest);
    assert quote + (cs + (quote + rest)) == quote + cs + quote + rest;
  }

  lemma MemberIsJson(m: Member, rest: string)
    ensures MemberText(m, rest) == JsonMember(m) + rest
  {
    hide Quoted;
    hide JsonString;
    var colon, value := ":", if m.1.Some? then JsonString(m.1.value) else "null";
    StringIsJson(m.0, colon + ValueText(m.1, rest));
    if m.1.Some? {
      StringIsJson(m.1.value, rest);
    }
    assert JsonString(m.0) + (colon + (value + rest)) == JsonString(m.0) + colon + value + rest;
  }

  lemma {:induction false} MoreMembersIsJson(m: Member, ms: seq<Member>)
    ensures MemberText(m, MoreMembers(ms)) == JsonMembers([m] + ms) + "}"
    decreases |ms|
  {
    hide MemberText;
    hide JsonMember;
    MemberIsJson(m, MoreMembers(ms));
    if ms == [] {
      assert [m] + ms == [m];
    } else {
      MoreMembersIsJson(ms[0], ms[1..]);
      assert [ms[0]] + ms[1..] == ms && ([m] + ms)[1..] == ms;
      var first, comma, more, end := JsonMember(m), ",", JsonMembers(ms), "}";
      assert first + (comma + (more + end)) == first + comma + more + end;
    }
  }

  /** The serialiser writes the JSON object with these members, in this order. */
  lemma ObjectTextIsJson(ms: seq<Member>)
    ensures ObjectText(ms) == "{" + JsonMembers(ms) + "}"
  {
    hide MemberText;
    if ms != [] {
      MoreMembersIsJson(ms[0], ms[1..]);
      assert [ms[0]] + ms[1..] == ms;
      var start, all, end := "{", JsonMembers(ms), "}";
      assert start + (all + end) == start + all + end;
    }
  }

  /** The members by name: a JSON object of thirteen, the optional ones null when absent. */
  lemma PayloadIs(i: HashInput)
    ensures Payload(i) == "{" + JsonMembers([
              ("action", Some(i.action)), ("algorithm", Some(i.algorithm)), ("caller_service", Some(i.callerService)),
              ("id", Some(i.id)), ("metadata", i.metadata), ("operation_id", i.operationId),
              ("prev_hash", Some(i.prevHash)), ("reason", i.reason), ("request_id", i.requestId),
              ("status", Some(i.status)), ("target_id", i.targetId), ("target_service", Some(i.targetService)),
              ("timestamp", Some(i.timestamp))]) + "}"
  {
    MembersListed(i);
    ObjectTextIsJson(Listed(i));
  }

  /** Distinct inputs have distinct payloads: every hashed field can be read back. */
  lemma PayloadInjective(a: HashInput, b: HashInput)
    requires Payload(a) == Payload(b)
    ensures a == b
  {
    var ms, ns := Members(a), Members(b);
    DropPrefix("{", MemberText(ms[0], MoreMembers(ms[1..])), MemberText(ns[0], MoreMembers(ns[1..])));
    MemberInjective(ms[0], ns[0], MoreMembers(ms[1..]), MoreMembers(ns[1..]));
    MoreMembersInjective(ms[1..], ns[1..]);
    MembersDetermine(a, b);
  }

  /** `a` sorts before `b`: they agree up to `k`, where `a` ends or has the smaller character. */
  predicate LessAt(a: string, b: string, k: nat) {
    k <= |a| && k < |b| && a[..k] == b[..k] && (k == |a| || a[k] < b[k])
  }

  ghost predicate Less(a: string, b: string) {
    exists k: nat :: LessAt(a, b, k)
  }

  lemma KeysAscending(n: nat)
    requires n + 1 < |KEYS|
    ensures Less(Name(KEYS[n]), Name(KEYS[n + 1]))
  {
    var at := [1, 0, 0, 0, 0, 0, 0, 2, 0, 0, 7, 1];
    assert LessAt(Name(KEYS[n]), Name(KEYS[n + 1]), at[n]);
  }

  /** `compute_audit_hash`: fill the map field by field, write it in key order, digest the text. */
  method ComputeAuditHash(sha: Digest, i: HashInput) returns (hash: string)
    ensures hash == sha(Payload(i))
  {
    var record: map<Key, Option<string>> := map[];
    record := record[Action := Some(i.action)];
    record := record[Algorithm := Some(i.algorithm)];
    record := record[CallerService := Some(i.callerService)];
    record := record[Id := Some(i.id)];
    record := record[PrevHash := Some(i.prevHash)];
    record := record[Reason := i.reason];
    record := record[Status := Some(i.status)];
    record := record[TargetService := Some(i.targetService)];
    record := record[Timestamp := Some(i.timestamp)];
    record := record[RequestId := i.requestId];
    record := record[OperationId := i.operationId];
    record := record[TargetId := i.targetId];
    record := record[Metadata := i.metadata];
    forall k: Key ensures k in record && record[k] == Field(i, k) {
      match k
      case Action => case Algorithm => case CallerService => case Id => case Metadata =>
      case OperationId => case PrevHash => case Reason => case RequestId => case Status =>
      case TargetId => case TargetService => case Timestamp =>
    }
    var ms: seq<Member> := [];
    for n := 0 to |KEYS|
      invariant ms == Members(i)[..n]
    {
      ms := ms + [(Name(KEYS[n]), record[KEYS[n]])];
    }
    assert ms == Members(i);
    hash := sha(ObjectText(ms));
  }
}
