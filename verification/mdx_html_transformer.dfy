/**
 * `MDX_HTML_TRANSFORMER`, the multiline element transformer of the markdown
 * tests that embeds `<MyComponent>…</MyComponent>` spans as code blocks: its
 * start and end patterns, its import `replace`, and its `export`.
 */
module MdxHtmlTransformer {
  import opened Outcomes
  import opened Text
  import opened MarkdownNodes

  const ComponentName := "MyComponent"
  /** The prefix `replace` puts before the collected lines. */
  const ImportPrefix := "From HTML: "
  /** The prefix `export` looks for (no trailing space). */
  const ExportMarker := "From HTML:"
  const OpenTag := "<MyComponent>"
  const CloseTag := "</MyComponent>"

  /** What `replace` tells the importer: handled (`undefined`) or defer to the next transformer (`false`). */
  datatype ReplaceOutcome = Handled | Defer

  /**
   * A match of `regExpStart`, `/<(\w+)[^>]*>/`, begins at `p`: a `<`, a word
   * character, and a `>` somewhere after it.
   */
  predicate StartTagAt(s: string, p: nat) {
    p + 1 < |s| && s[p] == '<' && IsWordChar(s[p + 1]) && FindChar(s, '>', p + 1).Some?
  }

  /**
   * `regExpStart` executed on a line: the leftmost start position; group 1 is
   * the longest run of word characters after the `<`, group 0 runs up to the
   * first `>` after it.
   */
  function MatchStart(line: string): (r: Option<RegExpMatch>)
    ensures r.None? ==> forall p: nat :: !StartTagAt(line, p)
    ensures r.Some? ==> StartTagAt(line, r.value.index)
    ensures r.Some? ==> forall p: nat :: p < r.value.index ==> !StartTagAt(line, p)
    ensures r.Some? ==> |r.value.groups| == 2
    ensures r.Some? ==>
              var i, tag := r.value.index, r.value.groups[1];
              && |tag| > 0
              && i + 1 + |tag| <= |line|
              && line[i + 1..i + 1 + |tag|] == tag
              && (forall j :: 0 <= j < |tag| ==> IsWordChar(tag[j]))
              && (i + 1 + |tag| < |line| ==> !IsWordChar(line[i + 1 + |tag|]))
    ensures r.Some? ==>
              var i, whole := r.value.index, r.value.groups[0];
              && 2 <= |whole|
              && i + |whole| <= |line|
              && line[i..i + |whole|] == whole
              && whole[|whole| - 1] == '>'
              && (forall j :: 0 <= j < |whole| - 1 ==> whole[j] != '>')
  {
    var atStart := (p: nat) => StartTagAt(line, p);
    assert forall p: nat :: atStart(p) == StartTagAt(line, p);
    match FirstWhere(atStart, 0, |line|)
    case None => None
    case Some(p) =>
      var close := FindChar(line, '>', p + 1).value;
      var tagEnd := WordEnd(line, p + 1);
      assert tagEnd <= close;
      Some(RegExpMatch(p, [line[p..close + 1], line[p + 1..tagEnd]]))
  }

  /**
   * A match of `regExpEnd`, `/<\/(\w+)\s*>/`, begins at `p`: `</`, a run of
   * word characters, optional white space, then `>`.
   */
  predicate EndTagAt(s: string, p: nat) {
    && p + 2 < |s|
    && s[p] == '<' && s[p + 1] == '/'
    && IsWordChar(s[p + 2])
    && SpaceEnd(s, WordEnd(s, p + 2)) < |s|
    && s[SpaceEnd(s, WordEnd(s, p + 2))] == '>'
  }

  /** The groups of the end-tag match starting at `p`. */
  function EndMatchAt(line: string, p: nat): (m: RegExpMatch)
    requires EndTagAt(line, p)
    ensures m.index == p && |m.groups| == 2
    ensures var tag, whole := m.groups[1], m.groups[0];
            && |tag| > 0
            && (forall j :: 0 <= j < |tag| ==> IsWordChar(tag[j]))
            && p + |whole| <= |line|
            && line[p..p + |whole|] == whole
            && |whole| >= |tag| + 3
            && whole[..2] == "</" && whole[2..2 + |tag|] == tag && whole[|whole| - 1] == '>'
            && (forall j :: 2 + |tag| <= j < |whole| - 1 ==> IsSpace(whole[j]))
  {
    var tagEnd := WordEnd(line, p + 2);
    var close := SpaceEnd(line, tagEnd);
    var whole := line[p..close + 1];
    var tag := line[p + 2..tagEnd];
    assert whole[..2] == "</";
    assert whole[2..2 + |tag|] == tag;
    assert forall j :: 2 + |tag| <= j < |whole| - 1 ==> whole[j] == line[p + j];
    RegExpMatch(p, [whole, tag])
  }

  /** `regExpEnd` executed on a line: the leftmost end tag; group 1 is its name. */
  function MatchEnd(line: string): (r: Option<RegExpMatch>)
    ensures r.None? ==> forall p: nat :: !EndTagAt(line, p)
    ensures r.Some? ==> EndTagAt(line, r.value.index) && r.value == EndMatchAt(line, r.value.index)
    ensures r.Some? ==> forall p: nat :: p < r.value.index ==> !EndTagAt(line, p)
  {
    var atStart := (p: nat) => EndTagAt(line, p);
    assert forall p: nat :: atStart(p) == EndTagAt(line, p);
    match FirstWhere(atStart, 0, |line|)
    case None => None
    case Some(p) => Some(EndMatchAt(line, p))
  }

  /** The code block `replace` builds from the lines between the tags. */
  function EmbedBlock(linesInBetween: seq<string>): BlockNode {
    CodeNode(ComponentName, [TextNode(ImportPrefix + Join(linesInBetween, "\n"), {})])
  }

  /**
   * `replace`: for a `MyComponent` start tag, appends one code block whose
   * single unformatted text run is the prefix followed by the collected lines
   * joined with newlines; for any other tag, defers and leaves the root alone.
   */
  function Replace(root: Root, startMatch: RegExpMatch, endMatch: Option<RegExpMatch>,
                   linesInBetween: seq<string>): (r: (Root, ReplaceOutcome))
    ensures Group(startMatch, 1) != Some(ComponentName) ==> r.1 == Defer && r.0 == root
    ensures Group(startMatch, 1) == Some(ComponentName) ==> r.1 == Handled
    ensures r.1 == Handled ==>
              && |r.0.children| == |root.children| + 1
              && r.0.children[..|root.children|] == root.children
    ensures r.1 == Handled ==>
              var added := r.0.children[|root.children|];
              && added.CodeNode?
              && added.language == ComponentName
              && |added.children| == 1
              && added.children[0].format == {}
              && TextContent(added) == ImportPrefix + Join(linesInBetween, "\n")
  {
    if Group(startMatch, 1) == Some(ComponentName) then
      ConcatTextSingle(TextNode(ImportPrefix + Join(linesInBetween, "\n"), {}));
      (Root(root.children + [EmbedBlock(linesInBetween)]), Handled)
    else
      (root, Defer)
  }

  /**
   * `export`: renders a block whose text starts with the marker as the
   * component, with the first occurrence of the import prefix removed;
   * otherwise hands the block to the next transformer (`null`).
   */
  function Export(node: BlockNode): (r: Option<string>)
    ensures r.None? <==> !StartsWith(TextContent(node), ExportMarker)
    ensures r.Some? ==> r.value == OpenTag + RemoveFirst(TextContent(node), ImportPrefix) + CloseTag
  {
    var text := TextContent(node);
    if StartsWith(text, ExportMarker) then Some(OpenTag + RemoveFirst(text, ImportPrefix) + CloseTag)
    else None
  }

  /** Exporting the block an accepting `replace` appended gives the component around the joined lines. */
  lemma ReplaceThenExport(root: Root, startMatch: RegExpMatch, endMatch: Option<RegExpMatch>,
                          linesInBetween: seq<string>)
    requires Group(startMatch, 1) == Some(ComponentName)
    ensures Export(Replace(root, startMatch, endMatch, linesInBetween).0.children[|root.children|])
            == Some(OpenTag + Join(linesInBetween, "\n") + CloseTag)
  {
    var joined := Join(linesInBetween, "\n");
    var added := Replace(root, startMatch, endMatch, linesInBetween).0.children[|root.children|];
    assert added == EmbedBlock(linesInBetween);
    assert TextContent(added) == ImportPrefix + joined;
    assert StartsWith(ImportPrefix + joined, ExportMarker) by {
      assert (ImportPrefix + joined)[..|ExportMarker|] == ImportPrefix[..|ExportMarker|];
    }
    RemoveFirstOfPrefix(ImportPrefix, joined);
  }

  /**
   * The whole round trip on newline-free lines: the exported text between
   * the tags splits back into exactly the collected lines. The list must be
   * non-empty: no lines and a single empty line both export as
   * `<MyComponent></MyComponent>`, so the round trip is lossy there and
   * splitting the empty text gives back `[""]`.
   */
  lemma RoundTripRecoversLines(root: Root, startMatch: RegExpMatch, endMatch: Option<RegExpMatch>,
                               linesInBetween: seq<string>)
    requires Group(startMatch, 1) == Some(ComponentName)
    requires |linesInBetween| >= 1
    requires forall i, j :: 0 <= i < |linesInBetween| && 0 <= j < |linesInBetween[i]| ==> linesInBetween[i][j] != '\n'
    ensures var out := Export(Replace(root, startMatch, endMatch, linesInBetween).0.children[|root.children|]);
            && out.Some?
            && |out.value| >= |OpenTag| + |CloseTag|
            && Split(out.value[|OpenTag|..|out.value| - |CloseTag|], '\n') == linesInBetween
  {
    ReplaceThenExport(root, startMatch, endMatch, linesInBetween);
    var joined := Join(linesInBetween, "\n");
    var out := OpenTag + joined + CloseTag;
    assert out[|OpenTag|..|out| - |CloseTag|] == joined;
    SplitJoin(linesInBetween, '\n');
  }

  /** A start line `<name attrs>` with a word-character name captures the name. */
  lemma StartTagCapturesName(name: string, attrs: string)
    requires |name| > 0 && forall j :: 0 <= j < |name| ==> IsWordChar(name[j])
    requires |attrs| > 0 ==> !IsWordChar(attrs[0])
    requires forall j :: 0 <= j < |attrs| ==> attrs[j] != '>'
    ensures MatchStart("<" + name + attrs + ">").Some?
    ensures MatchStart("<" + name + attrs + ">").value.index == 0
    ensures Group(MatchStart("<" + name + attrs + ">").value, 1) == Some(name)
  {
    var line := "<" + name + attrs + ">";
    assert forall j :: 0 <= j < |name| ==> line[1 + j] == name[j];
    assert forall j :: 0 <= j < |attrs| ==> line[1 + |name| + j] == attrs[j];
    assert line[|line| - 1] == '>';
    var close := FindChar(line, '>', 1);
    assert close == Some(|line| - 1);
    assert StartTagAt(line, 0);
    var tagEnd := WordEnd(line, 1);
    assert tagEnd == 1 + |name|;
    assert line[1..tagEnd] == name;
  }

  /** An end line `</name>` with optional trailing spaces captures the name. */
  lemma EndTagCapturesName(name: string, spaces: string)
    requires |name| > 0 && forall j :: 0 <= j < |name| ==> IsWordChar(name[j])
    requires forall j :: 0 <= j < |spaces| ==> IsSpace(spaces[j])
    ensures MatchEnd("</" + name + spaces + ">").Some?
    ensures MatchEnd("</" + name + spaces + ">").value.index == 0
    ensures Group(MatchEnd("</" + name + spaces + ">").value, 1) == Some(name)
  {
    var line := "</" + name + spaces + ">";
    var w := WordEnd(line, 2);
    assert forall j :: 0 <= j < |name| ==> line[2 + j] == name[j];
    assert forall j :: 2 <= j < 2 + |name| ==> IsWordChar(line[j]);
    assert !IsWordChar(line[2 + |name|]) by {
      if |spaces| > 0 {
        assert line[2 + |name|] == spaces[0];
      }
    }
    assert w == 2 + |name|;
    var e := SpaceEnd(line, w);
    assert forall j :: 0 <= j < |spaces| ==> line[2 + |name| + j] == spaces[j];
    assert forall j :: w <= j < |line| - 1 ==> IsSpace(line[j]);
    assert !IsSpace(line[|line| - 1]);
    assert e == |line| - 1;
    assert EndTagAt(line, 0);
    assert line[2..w] == name;
  }

  /**
   * Example input, first half: a `<Foo>` start line matches the start
   * pattern, but the span is declined and the root left untouched, so the
   * next transformer may claim it.
   */
  lemma ForeignTagDefers(root: Root, endMatch: Option<RegExpMatch>, lines: seq<string>)
    ensures MatchStart("<Foo>").Some?
    ensures Replace(root, MatchStart("<Foo>").value, endMatch, lines) == (root, Defer)
  {
    var name := "Foo";
    assert IsWordChar(name[0]) && IsWordChar(name[1]) && IsWordChar(name[2]);
    StartTagCapturesName(name, "");
    assert "<" + name + "" + ">" == "<Foo>";
  }

  /** Example input, second half: a `<MyComponent>` span is taken. */
  lemma ComponentTagHandled(root: Root, endMatch: Option<RegExpMatch>, lines: seq<string>)
    ensures MatchStart(OpenTag).Some?
    ensures Replace(root, MatchStart(OpenTag).value, endMatch, lines).1 == Handled
  {
    StartTagCapturesName(ComponentName, "");
    assert "<" + ComponentName + "" + ">" == OpenTag;
  }
}
