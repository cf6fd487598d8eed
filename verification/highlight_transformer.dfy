/**
 * `HIGHLIGHT_TEXT_MATCH_IMPORT`, the text-match transformer of the markdown
 * tests that turns `$text$` into highlighted text: its import pattern and its
 * `replace`.
 */
module HighlightTransformer {
  import opened Outcomes
  import opened Text
  import opened MarkdownNodes

  /**
   * A match of `importRegExp`, `/\$([^$]+?)\$/`, begins at `p`: a `$`
   * directly followed by a character other than `$`, with another `$` later.
   */
  predicate HighlightAt(s: string, p: nat) {
    p + 1 < |s| && s[p] == '$' && s[p + 1] != '$' && FindChar(s, '$', p + 1).Some?
  }

  /**
   * `importRegExp` executed on a text: the leftmost match; the lazy group
   * captures everything up to the next `$`, which is non-empty and `$`-free.
   */
  function MatchImport(s: string): (r: Option<RegExpMatch>)
    ensures r.None? ==> forall p: nat :: !HighlightAt(s, p)
    ensures r.Some? ==> HighlightAt(s, r.value.index)
    ensures r.Some? ==> forall p: nat :: p < r.value.index ==> !HighlightAt(s, p)
    ensures r.Some? ==> |r.value.groups| == 2
    ensures r.Some? ==>
              var i, capture := r.value.index, r.value.groups[1];
              && |capture| > 0
              && (forall j :: 0 <= j < |capture| ==> capture[j] != '$')
              && r.value.groups[0] == "$" + capture + "$"
              && i + |capture| + 2 <= |s|
              && s[i..i + |capture| + 2] == r.value.groups[0]
  {
    var atStart := (p: nat) => HighlightAt(s, p);
    assert forall p: nat :: atStart(p) == HighlightAt(s, p);
    match FirstWhere(atStart, 0, |s|)
    case None => None
    case Some(p) =>
      var close := FindChar(s, '$', p + 1).value;
      var capture := s[p + 1..close];
      assert forall j :: 0 <= j < |capture| ==> capture[j] == s[p + 1 + j];
      assert s[p..close + 1] == "$" + capture + "$";
      Some(RegExpMatch(p, [s[p..close + 1], capture]))
  }

  /** `replace`: the matched text run becomes highlighted (`setFormat('highlight')`), its text unchanged. */
  function Replace(textNode: TextNode): (r: TextNode)
    ensures r.text == textNode.text
    ensures r.format == {Highlight}
  {
    textNode.(format := {Highlight})
  }

  /**
   * A text with no `$` before a `$…$` span of non-`$` characters matches
   * exactly that span, capturing its content.
   */
  lemma MatchesFirstDollarSpan(before: string, content: string, after: string)
    requires forall j :: 0 <= j < |before| ==> before[j] != '$'
    requires |content| > 0 && forall j :: 0 <= j < |content| ==> content[j] != '$'
    ensures var r := MatchImport(before + "$" + content + "$" + after);
            r.Some? && r.value.index == |before| && Group(r.value, 1) == Some(content)
  {
    var s := before + "$" + content + "$" + after;
    var p := |before|;
    assert s[p] == '$';
    assert forall j :: 0 <= j < |content| ==> s[p + 1 + j] == content[j];
    assert s[p + 1 + |content|] == '$';
    var close := FindChar(s, '$', p + 1);
    assert close == Some(p + 1 + |content|);
    assert HighlightAt(s, p);
    forall q: nat | q < p ensures !HighlightAt(s, q) {
      assert s[q] == before[q];
    }
    assert s[p + 1..p + 1 + |content|] == content;
  }

  /** Example input: on `a $b$ c` the match starts at index 2 and captures `b`. */
  lemma HighlightExample()
    ensures MatchImport("a $b$ c").Some?
    ensures MatchImport("a $b$ c").value.index == 2
    ensures Group(MatchImport("a $b$ c").value, 1) == Some("b")
  {
    MatchesFirstDollarSpan("a ", "b", " c");
    assert "a " + "$" + "b" + "$" + " c" == "a $b$ c";
  }
}
