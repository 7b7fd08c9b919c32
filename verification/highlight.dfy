/**
  The highlight state machine of the data lineage viewer (the script embedded at
  test.py, lines 108-181).

  The state is the sequence of selected output columns. `toggleOutput` removes a
  column that is selected and appends one that is not; `clearSelection` empties the
  sequence. After every event the page is repainted from the sequence alone: the
  column at position `i` gets colour `palette[i mod 6]`, its paths are shown in that
  colour, every input cell one of its paths starts from is painted in that colour
  (later selections overwriting earlier ones), and two panels list the rules and
  examples of the selected columns. Here the repaint is the pure function `Render`.
 */
module Highlight {
  import opened Text
  import opened Assoc
  import opened Layout

  /** `highlightColors` (test.py:110). */
  const Palette: seq<string> := ["#66ff66", "#00ccff", "#ff66cc", "#ffcc00", "#cc66ff", "#ff6666"]
  /** Stroke of a path whose output column is not selected (test.py:120). */
  const DefaultStroke: string := "#999"

  type Selection = seq<string>

  datatype Event = Toggle(col: string) | Clear

  /** The colour of selection slot `i`: it depends on the position only. */
  function SlotColor(i: nat): string {
    Palette[i % |Palette|]
  }

  /**
    `toggleOutput` (test.py:112-118): the first occurrence of `c` is spliced out when
    there is one, otherwise `c` is appended. Toggling flips whether `c` is selected,
    keeps every other column's membership, and never introduces a duplicate.
   */
  function ToggleCol(sel: Selection, c: string): (r: Selection)
    ensures c !in sel ==> r == sel + [c]
    ensures c in sel ==> r == Splice(sel, IndexOf(sel, c))
    ensures forall d :: d != c ==> (d in r <==> d in sel)
  {
    var i := IndexOf(sel, c);
    if i == -1 then sel + [c]
    else
      assert forall d :: d in sel <==> d in sel[..i] || d == c || d in sel[i + 1..] by {
        assert sel == sel[..i] + [c] + sel[i + 1..];
      }
      Splice(sel, i)
  }

  /** `s` with the element at `i` removed. */
  function Splice(s: Selection, i: nat): (r: Selection)
    requires i < |s|
    ensures |r| == |s| - 1
    ensures forall j :: 0 <= j < i ==> r[j] == s[j]
    ensures forall j :: i <= j < |r| ==> r[j] == s[j + 1]
  {
    s[..i] + s[i + 1..]
  }

  /**
    On a selection without repeats, toggling flips whether `c` is selected and never
    introduces a repeat.
   */
  lemma ToggleKeepsDistinct(sel: Selection, c: string)
    requires NoDup(sel)
    ensures NoDup(ToggleCol(sel, c))
    ensures c in ToggleCol(sel, c) <==> c !in sel
  {
    if c in sel {
      SpliceDistinct(sel, IndexOf(sel, c));
    } else {
      AppendDistinct(sel, c);
    }
  }

  /** Splicing out one element of a sequence without repeats leaves no trace of it. */
  lemma SpliceDistinct(s: Selection, i: nat)
    requires i < |s| && NoDup(s)
    ensures NoDup(Splice(s, i)) && s[i] !in Splice(s, i)
  {
    var r := Splice(s, i);
    forall a, b | 0 <= a < b < |r| ensures r[a] != r[b] {
      var a' := if a < i then a else a + 1;
      var b' := if b < i then b else b + 1;
      assert r[a] == s[a'] && r[b] == s[b'];
    }
    forall j | 0 <= j < |r| ensures r[j] != s[i] {
      var j' := if j < i then j else j + 1;
      assert r[j] == s[j'];
    }
  }

  /** Appending a new element to a sequence without repeats keeps it without repeats. */
  lemma AppendDistinct(s: Selection, c: string)
    requires NoDup(s) && c !in s
    ensures NoDup(s + [c])
  {
    var r := s + [c];
    forall a, b | 0 <= a < b < |r| ensures r[a] != r[b] {
      assert r[a] == s[a];
      if b < |s| {
        assert r[b] == s[b];
      }
    }
  }

  /** The state machine: one event applied to the selection. */
  function Step(sel: Selection, e: Event): Selection {
    match e
    case Toggle(c) => ToggleCol(sel, c)
    case Clear => []
  }

  /** A run of events from a selection, in order. */
  function Run(sel: Selection, es: seq<Event>): Selection
    decreases |es|
  {
    if |es| == 0 then sel else Run(Step(sel, es[0]), es[1..])
  }

  /**
    A selection reached from the empty one never holds a column twice, whatever the
    clicks (test.py:113-118, 150).
   */
  lemma {:induction false} RunKeepsDistinct(sel: Selection, es: seq<Event>)
    requires NoDup(sel)
    ensures NoDup(Run(sel, es))
    decreases |es|
  {
    if |es| > 0 {
      if es[0].Toggle? {
        ToggleKeepsDistinct(sel, es[0].col);
      }
      RunKeepsDistinct(Step(sel, es[0]), es[1..]);
    }
  }

  /** Toggling an unselected column twice restores the selection exactly. */
  lemma ToggleTwice(sel: Selection, c: string)
    requires c !in sel
    ensures ToggleCol(ToggleCol(sel, c), c) == sel
  {
    var t := sel + [c];
    assert IndexOf(t, c) == |sel|;
    assert t[..|sel|] + t[|sel| + 1..] == sel;
  }

  /** `sel` without `c`. */
  function Without(sel: Selection, c: string): Selection
    decreases |sel|
  {
    if |sel| == 0 then []
    else (if sel[0] == c then [] else [sel[0]]) + Without(sel[1..], c)
  }

  lemma WithoutSelf(c: string)
    ensures Without([c], c) == []
  {
    assert [c][1..] == [];
  }

  lemma {:induction false} WithoutConcat(a: Selection, b: Selection, c: string)
    ensures Without(a + b, c) == Without(a, c) + Without(b, c)
    decreases |a|
  {
    if |a| > 0 {
      assert (a + b)[0] == a[0] && (a + b)[1..] == a[1..] + b;
      WithoutConcat(a[1..], b, c);
    } else {
      assert a + b == b;
    }
  }

  /**
    Toggling `c` does not reorder the other selected columns: the selection without
    `c` is the same before and after.
   */
  lemma ToggleKeepsOthersInOrder(sel: Selection, c: string)
    ensures Without(ToggleCol(sel, c), c) == Without(sel, c)
  {
    WithoutSelf(c);
    if c !in sel {
      WithoutConcat(sel, [c], c);
      assert Without(sel + [c], c) == Without(sel, c) + [];
    } else {
      var i := IndexOf(sel, c);
      assert ToggleCol(sel, c) == sel[..i] + sel[i + 1..];
      SpliceWithout(sel[..i], sel[i + 1..], c);
      assert sel == (sel[..i] + [c]) + sel[i + 1..];
    }
  }

  /** Dropping `c` from a sequence ignores one `c` spliced into it. */
  lemma SpliceWithout(before: Selection, after: Selection, c: string)
    ensures Without((before + [c]) + after, c) == Without(before + after, c)
  {
    WithoutSelf(c);
    WithoutConcat(before + [c], after, c);
    WithoutConcat(before, [c], c);
    assert Without(before + [c], c) == Without(before, c) + [];
    WithoutConcat(before, after, c);
  }

  /**
    Removing the column in slot `i` moves every later column down one slot, so each
    takes the colour the slot before it had: colours follow positions, not columns
    (test.py:125-126).
   */
  lemma RemovalShiftsColors(sel: Selection, i: nat)
    requires NoDup(sel) && i < |sel|
    ensures |ToggleCol(sel, sel[i])| == |sel| - 1
    ensures forall k :: 0 <= k < i ==> ToggleCol(sel, sel[i])[k] == sel[k]
    ensures forall k :: i < k < |sel| ==> ToggleCol(sel, sel[i])[k - 1] == sel[k]
  {
    assert IndexOf(sel, sel[i]) == i;
  }

  /** The colour slot the column is painted with: its last position in the selection. */
  function LastIndexOf(sel: Selection, c: string): (r: int)
    ensures r == -1 <==> c !in sel
    ensures r != -1 ==> 0 <= r < |sel| && sel[r] == c && forall j :: r < j < |sel| ==> sel[j] != c
    decreases |sel|
  {
    if |sel| == 0 then -1
    else if sel[|sel| - 1] == c then |sel| - 1
    else
      assert forall d :: d in sel <==> d in sel[..|sel| - 1] || d == sel[|sel| - 1] by {
        assert sel == sel[..|sel| - 1] + [sel[|sel| - 1]];
      }
      LastIndexOf(sel[..|sel| - 1], c)
  }

  /** How one path is drawn: shown or hidden, and its stroke colour. */
  datatype PathStyle = PathStyle(visible: bool, stroke: string)

  /**
    The style of a path after a repaint (test.py:120-132): shown in its owner's
    colour when the owner is selected, hidden in the default grey otherwise.
   */
  function StyleOf(sel: Selection, p: Path): (st: PathStyle)
    ensures st.visible <==> p.owner in sel
    ensures st.visible ==> st.stroke in Palette
    ensures NoDup(sel) && st.visible ==> st.stroke == SlotColor(IndexOf(sel, p.owner))
    ensures !st.visible ==> st.stroke == DefaultStroke
  {
    var i := LastIndexOf(sel, p.owner);
    if i == -1 then PathStyle(false, DefaultStroke)
    else
      assert NoDup(sel) ==> IndexOf(sel, p.owner) == i;
      PathStyle(true, SlotColor(i))
  }

  /** One column's paths painted into the input map (test.py:130-135). */
  function Mark(m: map<string, string>, paths: seq<Path>, c: string, color: string): map<string, string>
    decreases |paths|
  {
    if |paths| == 0 then m
    else
      var n := |paths| - 1;
      var m' := Mark(m, paths[..n], c, color);
      if paths[n].owner == c then m'[paths[n].input := color] else m'
  }

  /**
    `highlightedInputs` (test.py:124-137): input id to colour, built slot by slot in
    selection order, so a later slot overwrites an earlier one on a shared input.
   */
  function HighlightedInputs(sel: Selection, paths: seq<Path>): map<string, string>
    decreases |sel|
  {
    if |sel| == 0 then map[]
    else
      var n := |sel| - 1;
      Mark(HighlightedInputs(sel[..n], paths), paths, sel[n], SlotColor(n))
  }

  /** Input `id` starts a path of the column in slot `i`. */
  predicate Linked(sel: Selection, paths: seq<Path>, i: int, id: string) {
    0 <= i < |sel| && exists p :: p in paths && p.owner == sel[i] && p.input == id
  }

  /** Slot `i` is the last slot linked to input `id`. */
  predicate LastLinked(sel: Selection, paths: seq<Path>, i: int, id: string) {
    Linked(sel, paths, i, id) && forall j :: i < j < |sel| ==> !Linked(sel, paths, j, id)
  }

  lemma {:induction false} MarkSpec(m: map<string, string>, paths: seq<Path>, c: string, color: string, id: string)
    ensures id in Mark(m, paths, c, color) <==>
      id in m || exists p :: p in paths && p.owner == c && p.input == id
    ensures (exists p :: p in paths && p.owner == c && p.input == id) ==> Mark(m, paths, c, color)[id] == color
    ensures !(exists p :: p in paths && p.owner == c && p.input == id) && id in m ==> Mark(m, paths, c, color)[id] == m[id]
    decreases |paths|
  {
    if |paths| > 0 {
      var n := |paths| - 1;
      MarkSpec(m, paths[..n], c, color, id);
      assert paths == paths[..n] + [paths[n]];
      assert forall p :: p in paths <==> p in paths[..n] || p == paths[n];
    }
  }

  /** Linking is decided per slot, so it survives dropping a later slot. */
  lemma LinkedPrefix(sel: Selection, paths: seq<Path>, i: int, id: string)
    requires 0 <= i < |sel| - 1
    ensures Linked(sel, paths, i, id) <==> Linked(sel[..|sel| - 1], paths, i, id)
  {
    assert sel[..|sel| - 1][i] == sel[i];
  }

  /** An input cell is painted exactly when some selected column has a path from it. */
  lemma {:induction false} InputHighlighted(sel: Selection, paths: seq<Path>, id: string)
    ensures id in HighlightedInputs(sel, paths) <==> exists i :: Linked(sel, paths, i, id)
    decreases |sel|
  {
    if |sel| > 0 {
      var n := |sel| - 1;
      var prev := sel[..n];
      InputHighlighted(prev, paths, id);
      MarkSpec(HighlightedInputs(prev, paths), paths, sel[n], SlotColor(n), id);
      if id in HighlightedInputs(prev, paths) {
        var i :| Linked(prev, paths, i, id);
        LinkedPrefix(sel, paths, i, id);
      } else if id in HighlightedInputs(sel, paths) {
        assert Linked(sel, paths, n, id);
      }
      if exists i :: Linked(sel, paths, i, id) {
        var i :| Linked(sel, paths, i, id);
        if i < n {
          LinkedPrefix(sel, paths, i, id);
        }
      }
    }
  }

  /**
    A painted input cell has the colour of the last selected column with a path from
    it: later slots overwrite earlier ones (test.py:130-144).
   */
  lemma {:induction false} InputColor(sel: Selection, paths: seq<Path>, i: int, id: string)
    requires LastLinked(sel, paths, i, id)
    ensures id in HighlightedInputs(sel, paths)
    ensures HighlightedInputs(sel, paths)[id] == SlotColor(i)
    decreases |sel|
  {
    var n := |sel| - 1;
    var prev := sel[..n];
    MarkSpec(HighlightedInputs(prev, paths), paths, sel[n], SlotColor(n), id);
    if i < n {
      assert !Linked(sel, paths, n, id);
      LinkedPrefix(sel, paths, i, id);
      forall j | i < j < n ensures !Linked(prev, paths, j, id) {
        LinkedPrefix(sel, paths, j, id);
      }
      InputColor(prev, paths, i, id);
    }
  }

  /**
    An input cell is painted exactly when some selected column has a path from it,
    and then in the colour of the last such column's slot (test.py:124-144).
   */
  lemma InputColorIsLastLinked(sel: Selection, paths: seq<Path>, id: string)
    ensures id in HighlightedInputs(sel, paths) <==> exists i :: Linked(sel, paths, i, id)
    ensures forall i :: LastLinked(sel, paths, i, id) ==> HighlightedInputs(sel, paths)[id] == SlotColor(i)
  {
    InputHighlighted(sel, paths, id);
    forall i | LastLinked(sel, paths, i, id) ensures HighlightedInputs(sel, paths)[id] == SlotColor(i) {
      InputColor(sel, paths, i, id);
    }
  }

  /** A text panel: hidden, or shown with its text (test.py:177-180). */
  datatype Panel = Hidden | Shown(text: string)

  /** The marker opening every panel block. */
  const Marker: char := '\U{1F7E1}'

  /** The block one column contributes to a panel (test.py:174-175). */
  function PanelBlock(col: string, heading: string, text: string): string {
    "\n" + [Marker] + " Output Column: " + col + "\n- " + heading + ": " + text + "\n"
  }

  /** The rule (or example) bound to an output column; empty when there is none. */
  function TextOf(texts: map<string, string>, c: string): string {
    if c in texts then texts[c] else ""
  }

  /** The raw panel content: one block per selected column with a non-empty text. */
  function PanelContent(sel: Selection, texts: map<string, string>, heading: string): (r: string)
    ensures |r| == 0 <==> forall c :: c in sel ==> TextOf(texts, c) == ""
    ensures |r| > 0 ==> |r| >= 2 && r[0] == '\n' && r[1] == Marker
    decreases |sel|
  {
    if |sel| == 0 then ""
    else
      var n := |sel| - 1;
      var prev := PanelContent(sel[..n], texts, heading);
      assert forall c :: c in sel <==> c in sel[..n] || c == sel[n] by {
        assert sel == sel[..n] + [sel[n]];
      }
      prev + ColumnBlock(sel[n], texts, heading)
  }

  /** The block one selected column adds to its panel; empty when it has no text. */
  function ColumnBlock(c: string, texts: map<string, string>, heading: string): (r: string)
    ensures |r| == 0 <==> TextOf(texts, c) == ""
    ensures |r| > 0 ==> |r| >= 2 && r[0] == '\n' && r[1] == Marker
  {
    var t := TextOf(texts, c);
    if t != "" then PanelBlock(c, heading, t) else ""
  }

  /**
    `updateTooltipContent` for one panel (test.py:159-180): hidden when nothing is
    selected or no selected column has a text; otherwise shown with the trimmed
    content, which starts with the first block's marker.
   */
  function PanelOf(sel: Selection, texts: map<string, string>, heading: string): (p: Panel)
    ensures p.Shown? <==> exists c :: c in sel && TextOf(texts, c) != ""
    ensures p.Shown? ==> |p.text| > 0 && p.text[0] == Marker
    ensures p.Shown? ==> p.text == Strip(PanelContent(sel, texts, heading), IsJsWhitespace)
  {
    if |sel| == 0 then Hidden
    else
      var content := PanelContent(sel, texts, heading);
      if |content| == 0 then Hidden
      else
        var t := Strip(content, IsJsWhitespace);
        TrimMarker(content);
        Shown(t)
  }

  /** Trimming a content that opens with a newline and the marker starts at the marker. */
  lemma TrimMarker(content: string)
    requires |content| >= 2 && content[0] == '\n' && content[1] == Marker
    ensures |Strip(content, IsJsWhitespace)| > 0 && Strip(content, IsJsWhitespace)[0] == Marker
  {
    var t := TrimStart(content, IsJsWhitespace);
    assert TrimStart(content, IsJsWhitespace) == TrimStart(content[1..], IsJsWhitespace);
    assert content[1..][0] == Marker;
    assert t == content[1..];
    var r := TrimEnd(t, IsJsWhitespace);
    assert |r| > 0;
    assert r[0] == t[0];
  }

  /**
    With one column selected, the content is that column's block, or nothing when the
    column has no text (test.py:172-175).
   */
  lemma OneColumnContent(c: string, texts: map<string, string>, heading: string)
    ensures TextOf(texts, c) != "" ==> PanelContent([c], texts, heading) == PanelBlock(c, heading, TextOf(texts, c))
    ensures TextOf(texts, c) == "" ==> PanelContent([c], texts, heading) == ""
  {
    assert [c][..0] == [];
  }

  /**
    The content of a selection is the content of its first part followed by that of
    the rest: with `OneColumnContent`, the blocks of the selected columns with a text,
    concatenated in selection order (test.py:169-176).
   */
  lemma {:induction false} PanelContentAppend(a: Selection, b: Selection, texts: map<string, string>, heading: string)
    ensures PanelContent(a + b, texts, heading) == PanelContent(a, texts, heading) + PanelContent(b, texts, heading)
    decreases |b|
  {
    if |b| == 0 {
      assert a + b == a;
    } else {
      var n := |b| - 1;
      var ab := a + b;
      assert ab[..|ab| - 1] == a + b[..n];
      assert ab[|ab| - 1] == b[n];
      PanelContentLast(ab, texts, heading);
      PanelContentLast(b, texts, heading);
      PanelContentAppend(a, b[..n], texts, heading);
      ConcatAssoc(PanelContent(a, texts, heading), PanelContent(b[..n], texts, heading), ColumnBlock(b[n], texts, heading));
    }
  }

  /** The content of a non-empty selection ends with its last column's block. */
  lemma PanelContentLast(sel: Selection, texts: map<string, string>, heading: string)
    requires |sel| > 0
    ensures PanelContent(sel, texts, heading) ==
      PanelContent(sel[..|sel| - 1], texts, heading) + ColumnBlock(sel[|sel| - 1], texts, heading)
  {
  }

  /**
    The panel of a selection followed by one more column: hidden while no column has a
    text, otherwise the trim of the earlier content and the new column's block together.
   */
  lemma PanelOfAppend(sel: Selection, c: string, texts: map<string, string>, heading: string)
    ensures PanelOf(sel + [c], texts, heading) ==
      var content := PanelContent(sel, texts, heading) + PanelContent([c], texts, heading);
      if content == "" then Hidden else Shown(Strip(content, IsJsWhitespace))
  {
    PanelContentAppend(sel, [c], texts, heading);
  }

  /** A content that is one text line between newlines shows that line. */
  lemma ShownFramed(sel: Selection, texts: map<string, string>, heading: string, body: string)
    requires |body| > 0 && !IsJsWhitespace(body[0]) && !IsJsWhitespace(body[|body| - 1])
    requires PanelContent(sel, texts, heading) == "\n" + body + "\n"
    ensures PanelOf(sel, texts, heading) == Shown(body)
  {
    StripFramed(body);
  }

  /** `trim` removes exactly the newlines framing a block whose ends are not blank. */
  lemma StripFramed(body: string)
    requires |body| > 0 && !IsJsWhitespace(body[0]) && !IsJsWhitespace(body[|body| - 1])
    ensures Strip("\n" + body + "\n", IsJsWhitespace) == body
  {
    var content := "\n" + body + "\n";
    assert content[1..] == body + "\n";
    assert TrimStart(content, IsJsWhitespace) == TrimStart(content[1..], IsJsWhitespace);
    assert TrimStart(content, IsJsWhitespace) == body + "\n";
    assert (body + "\n")[..|body|] == body;
    assert TrimEnd(body + "\n", IsJsWhitespace) == TrimEnd(body, IsJsWhitespace);
  }

  /**
    With one column selected, the panel shows that column's block without its framing
    newlines, provided its text does not itself end in white space (test.py:166-180).
   */
  lemma SingleColumnPanel(c: string, texts: map<string, string>, heading: string)
    requires TextOf(texts, c) != "" && !IsJsWhitespace(TextOf(texts, c)[|TextOf(texts, c)| - 1])
    ensures PanelOf([c], texts, heading) ==
      Shown([Marker] + " Output Column: " + c + "\n- " + heading + ": " + TextOf(texts, c))
  {
    var t := TextOf(texts, c);
    var body := [Marker] + " Output Column: " + c + "\n- " + heading + ": " + t;
    assert PanelContent([c], texts, heading) == "\n" + body + "\n" by {
      OneColumnContent(c, texts, heading);
      BlockFrame(c, heading, t);
    }
    assert body[0] == Marker && body[|body| - 1] == t[|t| - 1] by {
      BlockFrame(c, heading, t);
    }
    ShownFramed([c], texts, heading, body);
  }

  /** A block is its text line between two newlines, and ends with the text's last character. */
  lemma BlockFrame(c: string, heading: string, t: string)
    requires t != ""
    ensures PanelBlock(c, heading, t) == "\n" + ([Marker] + " Output Column: " + c + "\n- " + heading + ": " + t) + "\n"
    ensures var body := [Marker] + " Output Column: " + c + "\n- " + heading + ": " + t;
      body[0] == Marker && body[|body| - 1] == t[|t| - 1]
  {
  }

  /** The repainted page, as a function of the selection alone. */
  datatype View = View(
    outputs: seq<(string, string)>,
    paths: seq<PathStyle>,
    inputs: map<string, string>,
    rule: Panel,
    example: Panel)

  /**
    The repaint after every event (test.py:119-146, 149-157): selected columns with
    their slot colours, path styles aligned with the scene's paths, painted inputs,
    and the two panels.
   */
  function Render(sel: Selection, paths: seq<Path>, rules: map<string, string>, examples: map<string, string>): (v: View)
    ensures |v.outputs| == |sel| && |v.paths| == |paths|
    ensures forall i :: 0 <= i < |sel| ==> v.outputs[i] == (sel[i], Palette[i % 6])
    ensures forall k :: 0 <= k < |paths| ==> (v.paths[k].visible <==> paths[k].owner in sel)
  {
    View(
      seq(|sel|, i requires 0 <= i < |sel| => (sel[i], SlotColor(i))),
      seq(|paths|, k requires 0 <= k < |paths| => StyleOf(sel, paths[k])),
      HighlightedInputs(sel, paths),
      PanelOf(sel, rules, "Rule"),
      PanelOf(sel, examples, "Example"))
  }

  /**
    After `clearSelection` (test.py:149-157), or once the last column is toggled off,
    the page is back to its initial look: no colours, every path hidden, no painted
    input, both panels hidden.
   */
  lemma EmptySelectionIsBlank(paths: seq<Path>, rules: map<string, string>, examples: map<string, string>)
    ensures Render([], paths, rules, examples).outputs == []
    ensures forall st :: st in Render([], paths, rules, examples).paths ==> st == PathStyle(false, DefaultStroke)
    ensures Render([], paths, rules, examples).inputs == map[]
    ensures Render([], paths, rules, examples).rule == Hidden
    ensures Render([], paths, rules, examples).example == Hidden
  {
  }

  /**
    Toggling an unselected column on and off again leaves the selection and hence
    the whole repainted page as they were.
   */
  lemma ToggleTwiceSameView(sel: Selection, c: string, paths: seq<Path>, rules: map<string, string>, examples: map<string, string>)
    requires c !in sel
    ensures Render(Step(Step(sel, Toggle(c)), Toggle(c)), paths, rules, examples) == Render(sel, paths, rules, examples)
  {
    ToggleTwice(sel, c);
  }
}
