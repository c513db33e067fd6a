/**
 Trimming, and case-folded substring search: `s.to_ascii_lowercase().find(w)` for a lower-case `w`.
 Folding keeps every length, so positions in the folded string are positions in `s`.
 */
module Text {
  import opened Wrappers

  /** The Unicode White_Space characters that `str::trim` removes. */
  predicate IsWhite(c: char) {
    var n := c as int;
    9 <= n <= 13 || n == 0x20 || n == 0x85 || n == 0xA0 || n == 0x1680 || 0x2000 <= n <= 0x200A ||
    n == 0x2028 || n == 0x2029 || n == 0x202F || n == 0x205F || n == 0x3000
  }

  /** `str::trim`. */
  function Trimmed(s: string): string {
    if s == "" then s
    else if IsWhite(s[0]) then Trimmed(s[1..])
    else if IsWhite(s[|s| - 1]) then Trimmed(s[..|s| - 1])
    else s
  }

  /** White space goes from both ends, and nothing else does. */
  lemma {:induction false} TrimmedIs(s: string) returns (left: string, right: string)
    ensures s == left + Trimmed(s) + right
    ensures forall c :: c in left + right ==> IsWhite(c)
    ensures Trimmed(s) != "" ==> !IsWhite(Trimmed(s)[0]) && !IsWhite(Trimmed(s)[|Trimmed(s)| - 1])
    decreases |s|
  {
    left, right := "", "";
    if s != "" && IsWhite(s[0]) {
      left, right := TrimmedIs(s[1..]);
      left := [s[0]] + left;
    } else if s != "" && IsWhite(s[|s| - 1]) {
      left, right := TrimmedIs(s[..|s| - 1]);
      right := right + [s[|s| - 1]];
    }
  }

  function LowerChar(c: char): char {
    if 'A' <= c <= 'Z' then (c as int + 32) as char else c
  }

  predicate OccursAt(s: string, w: string, i: int) {
    0 <= i && i + |w| <= |s| && forall j :: 0 <= j < |w| ==> LowerChar(s[i + j]) == w[j]
  }

  /** `w` occurs in `s` in some ASCII case. */
  ghost predicate Mentions(s: string, w: string) {
    exists i :: OccursAt(s, w, i)
  }

  /** The first occurrence of `w` at or after `from`. */
  function Find(s: string, w: string, from: nat := 0): (r: Option<nat>)
    ensures r.Some? ==> OccursAt(s, w, r.value) && from <= r.value
    ensures r.Some? ==> forall i :: from <= i < r.value ==> !OccursAt(s, w, i)
    ensures r.None? ==> forall i :: from <= i ==> !OccursAt(s, w, i)
    decreases |s| - from
  {
    if OccursAt(s, w, from) then Some(from)
    else if from >= |s| then None
    else Find(s, w, from + 1)
  }

  lemma FindIs(s: string, w: string, p: nat)
    requires OccursAt(s, w, p)
    requires forall i :: 0 <= i < p ==> !OccursAt(s, w, i)
    ensures Find(s, w) == Some(p)
  {
  }

  /** `w` has no character in common with the two ends of `mid`. */
  predicate Fences(mid: string, w: string) {
    w != [] && mid != [] && LowerChar(mid[0]) !in w && LowerChar(mid[|mid| - 1]) !in w
  }

  lemma CharOfWord(s: string, w: string, i: int, p: int)
    requires OccursAt(s, w, i) && i <= p < i + |w|
    ensures LowerChar(s[p]) in w
  {
    assert s[i + (p - i)] == s[p];
    assert LowerChar(s[p]) == w[p - i];
  }

  /** A word fenced by `mid` occurs around `mid` exactly where it occurs in one of the parts. */
  lemma OccursSplit(left: string, mid: string, right: string, w: string, i: int)
    requires Fences(mid, w)
    ensures OccursAt(left + mid + right, w, i) <==>
            OccursAt(left, w, i) || OccursAt(mid, w, i - |left|) || OccursAt(right, w, i - |left| - |mid|)
  {
    var s := left + mid + right;
    var m, n := |left|, |left| + |mid|;
    if OccursAt(s, w, i) {
      if i <= m < i + |w| {
        CharOfWord(s, w, i, m);
        assert false;
      } else if i < n <= i + |w| {
        CharOfWord(s, w, i, n - 1);
        assert false;
      }
    }
  }

  lemma OccursInSlice(s: string, a: nat, b: nat, w: string, i: int)
    requires a <= b <= |s|
    ensures OccursAt(s[a..b], w, i) <==> 0 <= i && a + i + |w| <= b && OccursAt(s, w, a + i)
  {
    assert OccursAt(s[a..b], w, i) ==> OccursAt(s, w, a + i);
  }

  /** Replacing `n` characters of the second of two joined strings. */
  lemma SpliceBehind(done: string, todo: string, p: nat, n: nat, mark: string)
    requires p + n <= |todo|
    ensures (done + todo)[..|done| + p] + mark + (done + todo)[|done| + p + n..] ==
            (done + todo[..p] + mark) + todo[p + n..]
  {
    assert (done + todo)[..|done| + p] == done + todo[..p];
    assert (done + todo)[|done| + p + n..] == todo[p + n..];
  }

  lemma Regroup(a: string, b: string, c: string, d: string)
    ensures a + (b + c + d) == (a + b + c) + d
  {
  }
}
