/**
 Keyword redaction of audit reasons (`AuditLog::sanitize_reason`).

 The source rescans the whole string after every replacement. `Redact` is the
 one-pass reading of that loop, and `SanitizeReason` is the loop itself.
 */
module ReasonSanitizer {
  import opened Wrappers
  import opened Text

  const MARK: string := "[REDACTED]"

  type Keyword = k: string | k != "" witness "k"

  const KEYWORDS: seq<Keyword> := [
    "password", "secret", "private_key", "master_key", "kek", "dek", "pin",
    "passphrase", "api_key", "hmac", "plaintext", "bootstrap"]

  predicate Blank(s: string) {
    forall i :: 0 <= i < |s| ==> IsWhite(s[i])
  }

  lemma BlankIsTrimmed(s: string)
    ensures Blank(s) <==> Trimmed(s) == ""
  {
    var left, right := TrimmedIs(s);
    if Trimmed(s) == "" {
      forall i | 0 <= i < |s| ensures IsWhite(s[i]) {
        assert s[i] == (left + right)[i];
      }
    } else {
      assert s[|left|] == Trimmed(s)[0];
    }
  }

  /** What the argument about replacements uses of a keyword: a mark neither holds it nor joins it. */
  ghost predicate Redactable(k: Keyword) {
    Fences(MARK, k) && !Mentions(MARK, k)
  }

  lemma KeywordRedactable(n: nat)
    requires n < |KEYWORDS|
    ensures Redactable(KEYWORDS[n])
  {
    var k := KEYWORDS[n];
    forall i | 0 <= i && i + |k| <= |MARK| ensures !OccursAt(MARK, k, i) {
      assert LowerChar(MARK[i + 0]) != k[0] || LowerChar(MARK[i + 1]) != k[1] || LowerChar(MARK[i + 2]) != k[2];
    }
  }

  /** Every occurrence of `k` replaced, in one pass from the left. */
  function Redact(s: string, k: Keyword): string
    decreases |s|
  {
    match Find(s, k)
    case None => s
    case Some(p) => s[..p] + MARK + Redact(s[p + |k|..], k)
  }

  /** The parts with the joints between them. */
  function Interleaved(parts: seq<string>, joints: seq<string>): string
    requires |parts| == |joints| + 1
  {
    if joints == [] then parts[0] else parts[0] + joints[0] + Interleaved(parts[1..], joints[1..])
  }

  /** The text cut at occurrences of `k`, with none left in the parts. */
  ghost predicate CutAt(s: string, k: Keyword, parts: seq<string>, hits: seq<string>) {
    && |parts| == |hits| + 1 && s == Interleaved(parts, hits)
    && (forall n :: 0 <= n < |hits| ==> |hits[n]| == |k| && OccursAt(hits[n], k, 0))
    && (forall n :: 0 <= n < |parts| ==> !Mentions(parts[n], k))
  }

  lemma InterleavedCons(part: string, parts: seq<string>, joint: string, joints: seq<string>)
    requires |parts| == |joints| + 1
    ensures Interleaved([part] + parts, [joint] + joints) == part + joint + Interleaved(parts, joints)
  {
    assert ([part] + parts)[1..] == parts && ([joint] + joints)[1..] == joints;
  }

  function Marks(n: nat): (ms: seq<string>)
    ensures |ms| == n && forall i :: 0 <= i < n ==> ms[i] == "[REDACTED]"
  {
    if n == 0 then [] else ["[REDACTED]"] + Marks(n - 1)
  }

  /** The text before the first occurrence of `k` does not mention `k`. */
  lemma NothingBeforeFirst(s: string, k: Keyword)
    requires Find(s, k).Some?
    ensures !Mentions(s[0..Find(s, k).value], k)
  {
    var p := Find(s, k).value;
    if i :| OccursAt(s[0..p], k, i) {
      OccursInSlice(s, 0, p, k, i);
    }
  }

  lemma CutAtFirst(s: string, k: Keyword, parts: seq<string>, hits: seq<string>)
    requires Find(s, k).Some? && CutAt(s[Find(s, k).value + |k|..], k, parts, hits)
    ensures var p := Find(s, k).value; CutAt(s, k, [s[..p]] + parts, [s[p..p + |k|]] + hits)
  {
    hide Mentions;
    hide Interleaved;
    var p := Find(s, k).value;
    NothingBeforeFirst(s, k);
    InterleavedCons(s[..p], parts, s[p..p + |k|], hits);
    assert s[0..p] == s[..p] && s == s[..p] + s[p..p + |k|] + s[p + |k|..];
    OccursInSlice(s, p, p + |k|, k, 0);
  }

  /** Redaction puts the mark at each occurrence and keeps every other character where it was. */
  lemma {:induction false} RedactReplaces(s: string, k: Keyword) returns (parts: seq<string>, hits: seq<string>)
    ensures CutAt(s, k, parts, hits)
    ensures Redact(s, k) == Interleaved(parts, Marks(|hits|))
    decreases |s|
  {
    match Find(s, k)
    case None =>
      parts, hits := [s], [];
    case Some(p) =>
      var more, others := RedactReplaces(s[p + |k|..], k);
      hide CutAt;
      hide Interleaved;
      CutAtFirst(s, k, more, others);
      InterleavedCons(s[..p], more, MARK, Marks(|others|));
      parts, hits := [s[..p]] + more, [s[p..p + |k|]] + others;
  }

  function RedactAll(s: string, ks: seq<Keyword>): string {
    if ks == [] then s else Redact(RedactAll(s, ks[..|ks| - 1]), ks[|ks| - 1])
  }

  /** A word around a mark was already in the text on one side of it. */
  lemma MarkIsInert(left: string, right: string, w: Keyword)
    requires Redactable(w)
    ensures Mentions(left + MARK + right, w) ==> Mentions(left, w) || Mentions(right, w)
  {
    if i :| OccursAt(left + MARK + right, w, i) {
      OccursSplit(left, MARK, right, w, i);
    }
  }

  lemma MentionsSlice(s: string, a: nat, b: nat, w: string)
    requires a <= b <= |s|
    ensures Mentions(s[a..b], w) ==> Mentions(s, w)
  {
    if i :| OccursAt(s[a..b], w, i) {
      OccursInSlice(s, a, b, w, i);
    }
  }

  /** One pass removes `k` and brings in no other redactable word. */
  lemma {:induction false} RedactClean(s: string, k: Keyword, w: Keyword)
    requires Redactable(k) && Redactable(w)
    ensures Mentions(Redact(s, k), w) ==> w != k && Mentions(s, w)
    decreases |s|
  {
    match Find(s, k)
    case None =>
    case Some(p) =>
      var left, rest := s[..p], s[p + |k|..];
      assert left == s[0..p] && rest == s[p + |k|..|s|];
      RedactClean(rest, k, w);
      MarkIsInert(left, Redact(rest, k), w);
      NothingBeforeFirst(s, k);
      MentionsSlice(s, 0, p, w);
      MentionsSlice(s, p + |k|, |s|, w);
  }

  ghost predicate AllRedactable(ks: seq<Keyword>) {
    forall n :: 0 <= n < |ks| ==> Redactable(ks[n])
  }

  lemma {:induction false} RedactAllClean(s: string, ks: seq<Keyword>, w: Keyword)
    requires AllRedactable(ks) && Redactable(w)
    ensures Mentions(RedactAll(s, ks), w) ==> w !in ks && Mentions(s, w)
    decreases |ks|
  {
    if ks != [] {
      var front, k := ks[..|ks| - 1], ks[|ks| - 1];
      RedactAllClean(s, front, w);
      RedactClean(RedactAll(s, front), k, w);
      assert ks == front + [k];
    }
  }

  /** None of the twelve words is left, in any ASCII case. */
  ghost predicate Clean(s: string) {
    && !Mentions(s, "password") && !Mentions(s, "secret") && !Mentions(s, "private_key")
    && !Mentions(s, "master_key") && !Mentions(s, "kek") && !Mentions(s, "dek") && !Mentions(s, "pin")
    && !Mentions(s, "passphrase") && !Mentions(s, "api_key") && !Mentions(s, "hmac")
    && !Mentions(s, "plaintext") && !Mentions(s, "bootstrap")
  }

  lemma CleanIs(s: string)
    ensures Clean(s) <==> forall n :: 0 <= n < |KEYWORDS| ==> !Mentions(s, KEYWORDS[n])
  {
    hide Mentions;
    if forall n :: 0 <= n < |KEYWORDS| ==> !Mentions(s, KEYWORDS[n]) {
      assert !Mentions(s, KEYWORDS[0]) && !Mentions(s, KEYWORDS[1]) && !Mentions(s, KEYWORDS[2]);
      assert !Mentions(s, KEYWORDS[3]) && !Mentions(s, KEYWORDS[4]) && !Mentions(s, KEYWORDS[5]);
      assert !Mentions(s, KEYWORDS[6]) && !Mentions(s, KEYWORDS[7]) && !Mentions(s, KEYWORDS[8]);
      assert !Mentions(s, KEYWORDS[9]) && !Mentions(s, KEYWORDS[10]) && !Mentions(s, KEYWORDS[11]);
    }
  }

  lemma {:induction false} RedactAllUnchanged(s: string, ks: seq<Keyword>)
    requires forall n :: 0 <= n < |ks| ==> !Mentions(s, ks[n])
    ensures RedactAll(s, ks) == s
    decreases |ks|
  {
    if ks != [] {
      RedactAllUnchanged(s, ks[..|ks| - 1]);
      assert !Mentions(s, ks[|ks| - 1]);
    }
  }

  /** A changed string shows a mark, so redaction never makes a non-blank string blank. */
  lemma {:induction false} RedactAllNotBlank(s: string, ks: seq<Keyword>)
    requires !Blank(s)
    ensures !Blank(RedactAll(s, ks))
    decreases |ks|
  {
    if ks != [] {
      var t, k := RedactAll(s, ks[..|ks| - 1]), ks[|ks| - 1];
      RedactAllNotBlank(s, ks[..|ks| - 1]);
      match Find(t, k)
      case None =>
      case Some(p) =>
        assert Redact(t, k)[p] == '[';
    }
  }

  /** The sanitised reason as a function of the given one. */
  function Sanitized(reason: Option<string>): Option<string> {
    if reason.None? || Blank(reason.value) then None else Some(RedactAll(reason.value, KEYWORDS))
  }

  /** A prefix that does not mention `k` and that no `k` can start in and leave. */
  ghost predicate Settled(done: string, k: Keyword) {
    !Mentions(done, k) && (done == "" || (done[|done| - 1] == ']' && ']' !in k))
  }

  /** Behind a settled prefix, searching from the start finds what searching the rest finds. */
  lemma FindBeyond(done: string, todo: string, k: Keyword)
    requires Settled(done, k)
    ensures match Find(todo, k)
            case None => Find(done + todo, k).None?
            case Some(q) => Find(done + todo, k) == Some(|done| + q)
  {
    forall i ensures OccursAt(done + todo, k, i) <==> OccursAt(todo, k, i - |done|) {
      if done == "" {
        assert done + todo == todo;
      } else {
        var front := done[..|done| - 1];
        assert done == front + "]" + "" && done + todo == front + "]" + todo;
        OccursSplit(front, "]", todo, k, i);
        OccursSplit(front, "]", "", k, i);
      }
    }
    match Find(todo, k)
    case None =>
    case Some(q) => FindIs(done + todo, k, |done| + q);
  }

  lemma SettledGrows(done: string, todo: string, k: Keyword, q: nat)
    requires Redactable(k) && Settled(done, k)
    requires Find(todo, k) == Some(q)
    ensures Settled(done + todo[..q] + MARK, k)
  {
    var left := done + todo[..q];
    FindBeyond(done, todo, k);
    NothingBeforeFirst(done + todo, k);
    assert (done + todo)[0..|done| + q] == left;
    MarkIsInert(left, "", k);
    assert left + MARK == left + MARK + "";
  }

  lemma RedactCases(todo: string, k: Keyword)
    ensures match Find(todo, k)
            case None => Redact(todo, k) == todo
            case Some(q) => Redact(todo, k) == todo[..q] + MARK + Redact(todo[q + |k|..], k)
  {
    hide Find;
    hide OccursAt;
  }

  lemma OccurrenceFits(s: string, w: string, i: nat)
    requires OccursAt(s, w, i)
    ensures i + |w| <= |s|
  {
  }

  lemma NothingSettled(k: Keyword)
    ensures Settled("", k)
  {
  }

  /**
   The inner loop: search the whole string again after each replacement. It stops
   because no mark can complete a keyword, so the text up to the last mark stays settled.
   */
  method RedactInPlace(s: string, keyword: Keyword) returns (sanitized: string)
    requires Redactable(keyword)
    ensures sanitized == Redact(s, keyword)
  {
    hide *;
    NothingSettled(keyword);
    sanitized := s;
    ghost var done, todo := "", s;
    var pos := Find(sanitized, keyword);
    while pos.Some?
      invariant sanitized == done + todo && Settled(done, keyword)
      invariant Redact(s, keyword) == done + Redact(todo, keyword)
      invariant pos == Find(sanitized, keyword)
      decreases |todo|
    {
      FindBeyond(done, todo, keyword);
      ghost var q := pos.value - |done|;
      OccurrenceFits(sanitized, keyword, pos.value);
      SettledGrows(done, todo, keyword, q);
      RedactCases(todo, keyword);
      SpliceBehind(done, todo, q, |keyword|, MARK);
      Regroup(done, todo[..q], MARK, Redact(todo[q + |keyword|..], keyword));
      sanitized := sanitized[..pos.value] + MARK + sanitized[pos.value + |keyword|..];
      done, todo := done + todo[..q] + MARK, todo[q + |keyword|..];
      pos := Find(sanitized, keyword);
    }
    FindBeyond(done, todo, keyword);
    RedactCases(todo, keyword);
  }

  /** The outer loop, over any list of keywords. */
  method RedactEach(s: string, keywords: seq<Keyword>) returns (sanitized: string)
    requires AllRedactable(keywords)
    ensures sanitized == RedactAll(s, keywords)
  {
    hide Redact;
    sanitized := s;
    for n := 0 to |keywords|
      invariant sanitized == RedactAll(s, keywords[..n])
    {
      sanitized := RedactInPlace(sanitized, keywords[n]);
      assert keywords[..n + 1][..n] == keywords[..n];
    }
    assert keywords[..|keywords|] == keywords;
  }

  lemma KeywordsRedactable()
    ensures AllRedactable(KEYWORDS)
  {
    forall n | 0 <= n < |KEYWORDS| ensures Redactable(KEYWORDS[n]) {
      KeywordRedactable(n);
    }
  }

  /** `sanitize_reason`. */
  method SanitizeReason(reason: Option<string>) returns (r: Option<string>)
    ensures r == Sanitized(reason)
  {
    if reason.None? || Blank(reason.value) {
      return None;
    }
    KeywordsRedactable();
    hide KEYWORDS;
    hide RedactAll;
    var sanitized := RedactEach(reason.value, KEYWORDS);
    RedactAllNotBlank(reason.value, KEYWORDS);
    r := if sanitized == "" then None else Some(sanitized);
  }

  /**
   A reason that is missing or all white space is dropped, and no other. No keyword survives in
   any ASCII case, although later replacements edit text already cleaned.
   */
  lemma SanitizedIsClean(reason: Option<string>)
    ensures Sanitized(reason).None? <==> reason.None? || Trimmed(reason.value) == ""
    ensures Sanitized(reason).Some? ==> Clean(Sanitized(reason).value)
  {
    KeywordsRedactable();
    hide KEYWORDS;
    if reason.Some? {
      BlankIsTrimmed(reason.value);
    }
    if Sanitized(reason).Some? {
      var s := Sanitized(reason).value;
      forall n | 0 <= n < |KEYWORDS| ensures !Mentions(s, KEYWORDS[n]) {
        RedactAllClean(reason.value, KEYWORDS, KEYWORDS[n]);
      }
      CleanIs(s);
    }
  }

  /** A reason is stored as given exactly when it is not blank and mentions no keyword. */
  lemma SanitizedUnchangedIff(s: string)
    ensures Sanitized(Some(s)) == Some(s) <==> Trimmed(s) != "" && Clean(s)
  {
    hide KEYWORDS;
    hide Clean;
    SanitizedIsClean(Some(s));
    BlankIsTrimmed(s);
    CleanIs(s);
    if Clean(s) {
      RedactAllUnchanged(s, KEYWORDS);
    }
  }

  /** Sanitising in the service and again in the repository stores the same reason as once. */
  lemma SanitizedTwice(reason: Option<string>)
    ensures Sanitized(Sanitized(reason)) == Sanitized(reason)
  {
    hide KEYWORDS;
    if Sanitized(reason).Some? {
      var s := Sanitized(reason).value;
      RedactAllNotBlank(reason.value, KEYWORDS);
      BlankIsTrimmed(s);
      SanitizedIsClean(reason);
      SanitizedUnchangedIff(s);
    }
  }
}
