/** The JavaScript string operations the markdown transformers use, on `seq<char>`. */
module Text {
  import opened Outcomes

  /** `s.startsWith(prefix)`. */
  predicate StartsWith(s: string, prefix: string) {
    |prefix| <= |s| && s[..|prefix|] == prefix
  }

  /** `pat` occurs in `s` starting at index `i`. */
  predicate OccursAt(s: string, pat: string, i: int) {
    0 <= i && i + |pat| <= |s| && s[i..i + |pat|] == pat
  }

  /** `s.indexOf(pat, from)`: the first index at or after `from` where `pat` occurs. */
  function IndexOfFrom(s: string, pat: string, from: nat): (r: Option<nat>)
    ensures r.Some? ==> from <= r.value && OccursAt(s, pat, r.value)
    ensures r.Some? ==> forall i :: from <= i < r.value ==> !OccursAt(s, pat, i)
    ensures r.None? ==> forall i :: from <= i ==> !OccursAt(s, pat, i)
    decreases |s| - from
  {
    if from + |pat| > |s| then None
    else if s[from..from + |pat|] == pat then Some(from)
    else IndexOfFrom(s, pat, from + 1)
  }

  /** `s.indexOf(pat)`. */
  function IndexOf(s: string, pat: string): Option<nat> {
    IndexOfFrom(s, pat, 0)
  }

  /** The first index at or after `from` holding the character `c`. */
  function FindChar(s: string, c: char, from: nat): (r: Option<nat>)
    ensures r.Some? ==> from <= r.value < |s| && s[r.value] == c
    ensures r.Some? ==> forall i :: from <= i < r.value ==> s[i] != c
    ensures r.None? ==> forall i :: from <= i < |s| ==> s[i] != c
    decreases |s| - from
  {
    if from >= |s| then None
    else if s[from] == c then Some(from)
    else FindChar(s, c, from + 1)
  }

  /**
   * `s.replace(pat, '')`: JavaScript's `replace` with a string pattern and an
   * empty replacement deletes the first occurrence of the pattern, if any.
   */
  function RemoveFirst(s: string, pat: string): (r: string)
    ensures IndexOf(s, pat).None? ==> r == s
    ensures IndexOf(s, pat).Some? ==>
              var i := IndexOf(s, pat).value;
              |r| == |s| - |pat| && s == r[..i] + pat + r[i..]
  {
    match IndexOf(s, pat)
    case None => s
    case Some(i) => s[..i] + s[i + |pat|..]
  }

  /** Removing a pattern from the front of a string gives back the rest. */
  lemma RemoveFirstOfPrefix(pat: string, t: string)
    ensures RemoveFirst(pat + t, pat) == t
  {
    assert OccursAt(pat + t, pat, 0) by {
      assert (pat + t)[0..|pat|] == pat;
    }
    assert (pat + t)[|pat|..] == t;
  }

  /** `lines.join(sep)`. */
  function Join(lines: seq<string>, sep: string): string {
    if |lines| == 0 then ""
    else if |lines| == 1 then lines[0]
    else lines[0] + sep + Join(lines[1..], sep)
  }

  /** `s.split(sep)` for a one-character separator: never empty, one piece per separator plus one. */
  function Split(s: string, sep: char): (pieces: seq<string>)
    ensures |pieces| >= 1
    ensures forall i, j :: 0 <= i < |pieces| && 0 <= j < |pieces[i]| ==> pieces[i][j] != sep
    decreases |s|
  {
    match FindChar(s, sep, 0)
    case None => [s]
    case Some(k) => [s[..k]] + Split(s[k + 1..], sep)
  }

  /** `join` then `split` on a separator no line contains gives the lines back. */
  lemma {:induction false} SplitJoin(lines: seq<string>, sep: char)
    requires |lines| >= 1
    requires forall i, j :: 0 <= i < |lines| && 0 <= j < |lines[i]| ==> lines[i][j] != sep
    ensures Split(Join(lines, [sep]), sep) == lines
    decreases |lines|
  {
    var first := lines[0];
    if |lines| == 1 {
      assert FindChar(first, sep, 0).None?;
    } else {
      var rest := Join(lines[1..], [sep]);
      var s := first + [sep] + rest;
      assert s[|first|] == sep;
      assert forall i :: 0 <= i < |first| ==> s[i] == first[i];
      assert FindChar(s, sep, 0) == Some(|first|);
      assert s[..|first|] == first;
      assert s[|first| + 1..] == rest;
      SplitJoin(lines[1..], sep);
      assert [first] + lines[1..] == lines;
    }
  }

  /** A successful `RegExp.exec`: where the match starts and its groups, group 0 being the whole match. */
  datatype RegExpMatch = RegExpMatch(index: nat, groups: seq<string>)

  /** Group `i` of a match, missing when the pattern has no such group. */
  function Group(m: RegExpMatch, i: nat): Option<string> {
    if i < |m.groups| then Some(m.groups[i]) else None
  }

  /** JavaScript's `\w`. */
  predicate IsWordChar(c: char) {
    ('a' <= c <= 'z') || ('A' <= c <= 'Z') || ('0' <= c <= '9') || c == '_'
  }

  /** JavaScript's `\s`: the ECMAScript white space and line terminator characters. */
  predicate IsSpace(c: char) {
    c == '\t' || c == '\n' || c == '\U{000B}' || c == '\U{000C}' || c == '\r' || c == ' '
    || c == '\U{00A0}' || c == '\U{1680}' || ('\U{2000}' <= c <= '\U{200A}')
    || c == '\U{2028}' || c == '\U{2029}' || c == '\U{202F}' || c == '\U{205F}' || c == '\U{3000}' || c == '\U{FEFF}'
  }

  /** The end of the run of word characters starting at `from` (a greedy `\w*`). */
  function WordEnd(s: string, from: nat): (r: nat)
    requires from <= |s|
    ensures from <= r <= |s|
    ensures forall i :: from <= i < r ==> IsWordChar(s[i])
    ensures r < |s| ==> !IsWordChar(s[r])
    decreases |s| - from
  {
    if from < |s| && IsWordChar(s[from]) then WordEnd(s, from + 1) else from
  }

  /** The end of the run of white space starting at `from` (a greedy `\s*`). */
  function SpaceEnd(s: string, from: nat): (r: nat)
    requires from <= |s|
    ensures from <= r <= |s|
    ensures forall i :: from <= i < r ==> IsSpace(s[i])
    ensures r < |s| ==> !IsSpace(s[r])
    decreases |s| - from
  {
    if from < |s| && IsSpace(s[from]) then SpaceEnd(s, from + 1) else from
  }

  /** The least index in `[from, limit)` satisfying `P`: where an unanchored regular expression first matches. */
  function FirstWhere(P: nat -> bool, from: nat, limit: nat): (r: Option<nat>)
    ensures r.Some? ==> from <= r.value < limit && P(r.value)
    ensures r.Some? ==> forall i: nat :: from <= i < r.value ==> !P(i)
    ensures r.None? ==> forall i: nat :: from <= i < limit ==> !P(i)
    decreases limit - from
  {
    if from >= limit then None
    else if P(from) then Some(from)
    else FirstWhere(P, from + 1, limit)
  }
}
