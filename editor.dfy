/** The text editor of the workspace (client/client/src/Workspace.jsx,
    `EditorPart`).

    The shared Yjs text is a string. On every input event the editor
    compares the new text of the editable element with the shared text and
    turns the difference into one insertion or one deletion at the caret.
    Whenever the shared text changes it is rendered back as HTML, one span
    per formatting run, and the caret is put back at its character offset by
    walking the element's text nodes.

    The caret offset read from the browser selection is an input; the DOM is
    a tree whose text nodes carry only their length. */
module Editor {
  import opened Wrappers

  // ------------------------------------------------------------ handleInput

  /** An index argument of JavaScript's `String.prototype.slice`: a negative
      index counts back from the end, and the result is clamped to the
      string. */
  function SliceIndex(i: int, len: nat): (k: nat)
    ensures k <= len
    ensures 0 <= i <= len ==> k == i
  {
    if i < 0 then (if len + i < 0 then 0 else len + i)
    else if i > len then len
    else i
  }

  /** `s.slice(start, end)`; empty when the clamped start is not before the
      clamped end. */
  function Slice(s: string, start: int, end: int): (r: string)
    ensures |r| <= |s|
    ensures 0 <= start <= end <= |s| ==> r == s[start..end]
  {
    var from := SliceIndex(start, |s|);
    var to := SliceIndex(end, |s|);
    if from < to then s[from..to] else []
  }

  /** The call `handleInput` makes on the shared text. */
  datatype Edit =
    | Insert(at: int, text: string, color: string)   // ytext.insert(at, text, { color })
    | Delete(at: int, count: int)                     // ytext.delete(at, count)
    | NoEdit

  /** `handleInput`: the new text of the element, the shared text and the
      caret offset (read after the input) determine the edit. A longer text
      inserts the characters just before the caret, as many as the text grew;
      a shorter text deletes as many characters as it shrank, starting at the
      caret; an unchanged length does nothing. */
  function HandleInput(oldText: string, newText: string, offset: nat, color: string): (e: Edit)
    ensures e.Insert? <==> |newText| > |oldText|
    ensures e.Delete? <==> |newText| < |oldText|
    ensures e.Insert? ==> |e.text| <= |newText| - |oldText| && e.at + |e.text| == offset && e.color == color
    ensures e.Delete? ==> e.at == offset && e.count == |oldText| - |newText| > 0
  {
    if |newText| > |oldText| then
      var addedText := Slice(newText, offset - (|newText| - |oldText|), offset);
      Insert(offset - |addedText|, addedText, color)
    else if |newText| < |oldText| then
      Delete(offset, |oldText| - |newText|)
    else
      NoEdit
  }

  /** The shared text after an edit, for edits that lie inside the text.
      Inserting an empty string does nothing; what Yjs does with positions
      outside the text is not part of this model (None). */
  function ApplyEdit(text: string, e: Edit): (r: Option<string>)
    ensures e.NoEdit? ==> r == Some(text)
    ensures r.Some? && e.Insert? ==> |r.value| == |text| + |e.text|
    ensures r.Some? && e.Delete? ==> |r.value| == |text| - e.count
  {
    match e
    case NoEdit => Some(text)
    case Insert(at, s, _) =>
      if s == [] then Some(text)
      else if 0 <= at <= |text| then Some(text[..at] + s + text[at..])
      else None
    case Delete(at, n) =>
      if n == 0 then Some(text)
      else if 0 <= at && 0 < n && at + n <= |text| then Some(text[..at] + text[at + n..])
      else None
  }

  /** The three cases of the diff: with the caret at least as far as the
      growth, the inserted text is the `k` characters before the caret;
      a shrink by `k` deletes `k` characters at the caret; equal lengths
      leave the text alone. */
  lemma HandleInputCases(oldText: string, newText: string, offset: nat, color: string)
    ensures var k := |newText| - |oldText|;
      k > 0 && k <= offset <= |newText| ==>
        HandleInput(oldText, newText, offset, color) == Insert(offset - k, newText[offset - k..offset], color)
    ensures |newText| < |oldText| ==>
      HandleInput(oldText, newText, offset, color) == Delete(offset, |oldText| - |newText|)
    ensures |newText| == |oldText| ==> HandleInput(oldText, newText, offset, color) == NoEdit
  {
  }

  /** Typing or pasting `s` at position `p`, which leaves the caret right
      after it, makes the shared text equal to the element's text. */
  lemma InsertionAtCaretRoundTrip(oldText: string, p: nat, s: string, color: string)
    requires p <= |oldText| && s != []
    ensures var newText := oldText[..p] + s + oldText[p..];
      ApplyEdit(oldText, HandleInput(oldText, newText, p + |s|, color)) == Some(newText)
  {
  }

  /** Removing `n` characters at position `p` (backspace, forward delete or
      deleting a selection), which leaves the caret at `p`, makes the shared
      text equal to the element's text. */
  lemma DeletionAtCaretRoundTrip(oldText: string, p: nat, n: nat, color: string)
    requires 0 < n && p + n <= |oldText|
    ensures var newText := oldText[..p] + oldText[p + n..];
      ApplyEdit(oldText, HandleInput(oldText, newText, p, color)) == Some(newText)
  {
  }

  /** An input that keeps the length, such as replacing one selected
      character by another, leaves the shared text as it was. */
  lemma SameLengthKeepsText(oldText: string, newText: string, offset: nat, color: string)
    requires |newText| == |oldText|
    ensures ApplyEdit(oldText, HandleInput(oldText, newText, offset, color)) == Some(oldText)
  {
  }

  /** The caret offset `getCaretCharacterOffsetWithin` reads when the caret
      is at position `pos` of the element's text. The range's `toString()`
      counts the characters of text nodes only, and the rendering turns every
      newline into a `<br/>` element, so newlines before the caret are not
      counted. */
  function DomCaretOffset(text: string, pos: nat): (k: nat)
    requires pos <= |text|
    ensures k <= pos
    ensures '\n' !in text[..pos] <==> k == pos
    decreases pos
  {
    if pos == 0 then 0
    else
      assert text[..pos] == text[..pos - 1] + [text[pos - 1]];
      DomCaretOffset(text, pos - 1) + (if text[pos - 1] == '\n' then 0 else 1)
  }

  /** With a newline before the caret, the offset `handleInput` reads is
      short of the caret's position in the text, and the edit lands in the
      wrong place: typing `e` at the end of `ab\ncd` stores `ab\ncdd`, and a
      backspace after the `c` stores `abcd`. */
  lemma NewlineBeforeCaretMisplacesEdit(color: string)
    ensures DomCaretOffset("ab\ncde", 6) == 5
    ensures ApplyEdit("ab\ncd", HandleInput("ab\ncd", "ab\ncde", DomCaretOffset("ab\ncde", 6), color))
      == Some("ab\ncdd")
    ensures DomCaretOffset("ab\nd", 3) == 2
    ensures ApplyEdit("ab\ncd", HandleInput("ab\ncd", "ab\nd", DomCaretOffset("ab\nd", 3), color))
      == Some("abcd")
  {
    var typed, erased := "ab\ncde", "ab\nd";
    assert DomCaretOffset(typed, 6) == 5 by {
      assert typed[5] != '\n' && typed[4] != '\n' && typed[3] != '\n' && typed[2] == '\n';
      assert typed[1] != '\n' && typed[0] != '\n';
    }
    assert DomCaretOffset(erased, 3) == 2 by {
      assert erased[2] == '\n' && erased[1] != '\n' && erased[0] != '\n';
    }
    assert Slice(typed, 4, 5) == "d";
    assert "ab\ncd"[..4] + "d" + "ab\ncd"[4..] == "ab\ncdd";
    assert "ab\ncd"[..2] + "ab\ncd"[3..] == "abcd";
  }

  // ---------------------------------------------------------------- render

  /** One operation of `ytext.toDelta()`: a run of text and its `color`
      attribute, if any. */
  datatype DeltaOp = DeltaOp(insert: string, color: Option<string>)

  const DefaultColor: string := "#2d3436"

  /** `op.attributes?.color || "#2d3436"`: a missing or empty color falls back
      to the default. */
  function SegmentColor(op: DeltaOp): string
  {
    if op.color.Some? && op.color.value != "" then op.color.value else DefaultColor
  }

  /** `s.replace(/\n/g, "<br/>")` */
  function ReplaceNewlines(s: string): string
  {
    if s == [] then []
    else (if s[0] == '\n' then "<br/>" else [s[0]]) + ReplaceNewlines(s[1..])
  }

  /** The span for one operation. */
  function Span(op: DeltaOp): string
  {
    "<span style=\"color: " + SegmentColor(op) + "\">" + ReplaceNewlines(op.insert) + "</span>"
  }

  /** `delta.map(op => span).join("")` */
  function RenderHtml(delta: seq<DeltaOp>): string
  {
    if delta == [] then [] else Span(delta[0]) + RenderHtml(delta[1..])
  }

  /** The span takes the run's color when it has a non-empty one, and the
      default color otherwise. */
  lemma SpanColor(op: DeltaOp)
    ensures op.color.Some? && op.color.value != "" ==> SegmentColor(op) == op.color.value
    ensures op.color.None? || op.color == Some("") ==> SegmentColor(op) == DefaultColor
    ensures SegmentColor(op) != ""
  {
  }

  /** Rendering leaves no newline behind, and changes nothing in a text
      without newlines (so markup in the text is not escaped). */
  lemma {:induction false} ReplaceNewlinesFacts(s: string)
    ensures '\n' !in ReplaceNewlines(s)
    ensures '\n' !in s ==> ReplaceNewlines(s) == s
  {
    if s != [] {
      ReplaceNewlinesFacts(s[1..]);
    }
  }

  /** Turning `<br/>` back into newlines undoes the rendering of a text
      that has no `<` of its own. */
  function RestoreNewlines(h: string): string
  {
    if h == [] then []
    else if |h| >= 5 && h[..5] == "<br/>" then "\n" + RestoreNewlines(h[5..])
    else [h[0]] + RestoreNewlines(h[1..])
  }

  lemma {:induction false} RestoreAfterReplace(s: string)
    requires '<' !in s
    ensures RestoreNewlines(ReplaceNewlines(s)) == s
  {
    if s != [] {
      RestoreAfterReplace(s[1..]);
      var h := ReplaceNewlines(s);
      if s[0] == '\n' {
        assert h == "<br/>" + ReplaceNewlines(s[1..]);
        assert h[..5] == "<br/>" && h[5..] == ReplaceNewlines(s[1..]);
      } else {
        assert h == [s[0]] + ReplaceNewlines(s[1..]);
        assert h[1..] == ReplaceNewlines(s[1..]);
      }
    }
  }

  /** Rendering is one span per operation, in order: the HTML of two deltas
      side by side is the two renderings side by side. */
  lemma {:induction false} RenderConcat(a: seq<DeltaOp>, b: seq<DeltaOp>)
    ensures RenderHtml(a + b) == RenderHtml(a) + RenderHtml(b)
  {
    if a != [] {
      assert (a + b)[0] == a[0];
      assert (a + b)[1..] == a[1..] + b;
      assert RenderHtml(a + b) == Span(a[0]) + RenderHtml(a[1..] + b);
      RenderConcat(a[1..], b);
    } else {
      assert a + b == b;
    }
  }

  /** The span of operation `i` sits right after the rendering of the
      operations before it. */
  lemma RenderPrefix(delta: seq<DeltaOp>, i: nat)
    requires i < |delta|
    ensures RenderHtml(delta[..i + 1]) == RenderHtml(delta[..i]) + Span(delta[i])
  {
    assert delta[..i + 1] == delta[..i] + [delta[i]];
    RenderConcat(delta[..i], [delta[i]]);
  }

  /** The HTML of the first `i` operations is a prefix of the whole HTML,
      and the HTML of the others follows it. */
  lemma RenderOfPrefixIsPrefix(delta: seq<DeltaOp>, i: nat)
    requires i <= |delta|
    ensures RenderHtml(delta) == RenderHtml(delta[..i]) + RenderHtml(delta[i..])
    ensures RenderHtml(delta[..i]) <= RenderHtml(delta)
  {
    var before, after := delta[..i], delta[i..];
    assert delta == before + after;
    RenderConcat(before, after);
    var whole := RenderHtml(delta);
    assert whole[..|RenderHtml(before)|] == RenderHtml(before);
  }

  // ------------------------------------------------------ setCaretPosition

  /** A DOM node: a text node (`nodeType === 3`) with its length, or any
      other node with its children. */
  datatype DomNode = TextNode(length: nat) | ElementNode(children: seq<DomNode>)

  /** A caret position: the text node, by its index among the text nodes in
      document order, and the offset inside it. */
  datatype Caret = Caret(node: nat, offset: int)

  /** The lengths of the text nodes under a node, in document order. */
  function NodeLengths(n: DomNode): seq<nat>
    decreases n, 1
  {
    match n
    case TextNode(len) => [len]
    case ElementNode(children) => ForestLengths(children)
  }

  function ForestLengths(nodes: seq<DomNode>): seq<nat>
    decreases nodes, 0
  {
    if nodes == [] then [] else NodeLengths(nodes[0]) + ForestLengths(nodes[1..])
  }

  function Sum(ls: seq<nat>): nat
  {
    if ls == [] then 0 else ls[0] + Sum(ls[1..])
  }

  /** Where the caret goes: the first text node whose end is at or after the
      offset, at the offset minus the characters before that node. */
  function Locate(ls: seq<nat>, offset: nat): Option<Caret>
  {
    if ls == [] then None
    else if offset <= ls[0] then Some(Caret(0, offset))
    else match Locate(ls[1..], offset - ls[0])
      case None => None
      case Some(c) => Some(Caret(c.node + 1, c.offset))
  }

  lemma SumPrefixStep(ls: seq<nat>, i: nat)
    requires i < |ls|
    ensures Sum(ls[..i + 1]) == ls[0] + Sum(ls[1..][..i])
  {
    assert ls[..i + 1] == [ls[0]] + ls[1..][..i];
    assert ([ls[0]] + ls[1..][..i])[1..] == ls[1..][..i];
  }

  /** `Locate` finds the first text node reaching the offset, with an offset
      inside that node; it finds nothing exactly when there is no text node
      or the offset is past the end of the text. */
  lemma {:induction false} LocateFirstReaching(ls: seq<nat>, offset: nat)
    ensures Locate(ls, offset).None? <==> ls == [] || Sum(ls) < offset
    ensures Locate(ls, offset).Some? ==>
      var c := Locate(ls, offset).value;
      && c.node < |ls|
      && offset <= Sum(ls[..c.node + 1])
      && (forall j :: 0 < j <= c.node ==> Sum(ls[..j]) < offset)
      && c.offset == offset - Sum(ls[..c.node])
      && 0 <= c.offset <= ls[c.node]
  {
    if ls != [] {
      assert ls[..1] == [ls[0]];
      assert ls[..0] == [];
      if offset > ls[0] {
        var rest := ls[1..];
        LocateFirstReaching(rest, offset - ls[0]);
        if Locate(rest, offset - ls[0]).Some? {
          var c := Locate(rest, offset - ls[0]).value;
          SumPrefixStep(ls, c.node + 1);
          SumPrefixStep(ls, c.node);
          forall j | 0 < j <= c.node + 1
            ensures Sum(ls[..j]) < offset
          {
            SumPrefixStep(ls, j - 1);
          }
        } else {
          assert Sum(ls) == ls[0] + Sum(rest);
        }
      }
    }
  }

  /** The state of the traversal: `charCount`, the number of text nodes
      passed (standing for node identity) and what `range.setStart` was
      given, once `found`. */
  datatype Walk = Walk(charCount: nat, seen: nat, found: Option<Caret>)

  /** One text node: nothing once found; otherwise the node is chosen when
      the offset is at most the count at its end, and the count moves on. */
  function Visit(w: Walk, len: nat, offset: nat): Walk
  {
    if w.found.Some? then w
    else
      var next := w.charCount + len;
      Walk(next, w.seen + 1, if offset <= next then Some(Caret(w.seen, offset - w.charCount)) else None)
  }

  function VisitAll(w: Walk, ls: seq<nat>, offset: nat): Walk
    decreases ls
  {
    if ls == [] then w else VisitAll(Visit(w, ls[0], offset), ls[1..], offset)
  }

  lemma {:induction false} VisitAllConcat(w: Walk, a: seq<nat>, b: seq<nat>, offset: nat)
    ensures VisitAll(w, a + b, offset) == VisitAll(VisitAll(w, a, offset), b, offset)
    decreases a
  {
    if a != [] {
      assert (a + b)[0] == a[0];
      assert (a + b)[1..] == a[1..] + b;
      assert VisitAll(w, a + b, offset) == VisitAll(Visit(w, a[0], offset), a[1..] + b, offset);
      VisitAllConcat(Visit(w, a[0], offset), a[1..], b, offset);
    } else {
      assert a + b == b;
    }
  }

  lemma {:induction false} VisitAllFound(w: Walk, ls: seq<nat>, offset: nat)
    requires w.found.Some?
    ensures VisitAll(w, ls, offset) == w
    decreases ls
  {
    if ls != [] {
      VisitAllFound(w, ls[1..], offset);
    }
  }

  /** A walk that has not found the caret yet, having passed `seen` nodes
      and `charCount` characters short of the offset, finds what `Locate`
      finds in the remaining nodes, shifted by what was passed. */
  lemma {:induction false} VisitAllLocates(w: Walk, ls: seq<nat>, offset: nat)
    requires w.found.None? && w.charCount <= offset
    ensures VisitAll(w, ls, offset).found ==
      match Locate(ls, offset - w.charCount)
      case None => None
      case Some(c) => Some(Caret(c.node + w.seen, c.offset))
    decreases ls
  {
    if ls != [] {
      var v := Visit(w, ls[0], offset);
      if offset <= w.charCount + ls[0] {
        VisitAllFound(v, ls[1..], offset);
      } else {
        VisitAllLocates(v, ls[1..], offset);
      }
    }
  }

  lemma ForestLengthsSnoc(nodes: seq<DomNode>, i: nat)
    requires i < |nodes|
    ensures ForestLengths(nodes[..i + 1]) == ForestLengths(nodes[..i]) + NodeLengths(nodes[i])
    decreases i
  {
    if i == 0 {
      assert nodes[..1] == [nodes[0]];
      assert [nodes[0]][1..] == [];
    } else {
      assert nodes[..i + 1][1..] == nodes[1..][..i];
      assert nodes[..i][1..] == nodes[1..][..i - 1];
      ForestLengthsSnoc(nodes[1..], i - 1);
    }
  }

  /** `traverseNodes`: the recursive walk with its shared `charCount` and
      `found`, stopping as soon as the caret is placed. */
  method TraverseNodes(node: DomNode, offset: nat, w: Walk) returns (w': Walk)
    ensures w' == VisitAll(w, NodeLengths(node), offset)
    decreases node
  {
    if w.found.Some? {
      VisitAllFound(w, NodeLengths(node), offset);
      return w;
    }
    match node {
      case TextNode(len) =>
        w' := Visit(w, len, offset);
      case ElementNode(children) =>
        w' := w;
        var i := 0;
        while i < |children|
          invariant 0 <= i <= |children|
          invariant w' == VisitAll(w, ForestLengths(children[..i]), offset)
        {
          var after := TraverseNodes(children[i], offset, w');
          ForestLengthsSnoc(children, i);
          VisitAllConcat(w, ForestLengths(children[..i]), NodeLengths(children[i]), offset);
          w' := after;
          i := i + 1;
        }
        assert children[..|children|] == children;
    }
  }

  /** `setCaretPosition`: the selection becomes the caret position that
      `Locate` gives, or is left as it was when no text node reaches the
      offset. */
  method SetCaretPosition(root: DomNode, offset: nat, selection: Option<Caret>) returns (sel: Option<Caret>)
    ensures Locate(NodeLengths(root), offset).Some? ==> sel == Locate(NodeLengths(root), offset)
    ensures Locate(NodeLengths(root), offset).None? ==> sel == selection
  {
    var w := TraverseNodes(root, offset, Walk(0, 0, None));
    VisitAllLocates(Walk(0, 0, None), NodeLengths(root), offset);
    if w.found.Some? {
      sel := w.found;
    } else {
      sel := selection;
    }
  }
}
