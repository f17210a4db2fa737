/**
 * The window of src/gui.rs: the in-window Ctrl+` shortcut and the enable
 * checkbox, the button that clears the queue, the delete button of each row
 * and the content a row shows.
 */
module Gui {
  import opened Clipboard
  import opened Turbo

  // ---------------------------------------------------------------------
  // Toggles and the clear button

  /**
   * Ctrl held while ` is released inside the window flips the enabled flag
   * once; nothing else changes.
   */
  method ToggleShortcut(st: SharedState, ctrlHeld: bool, backtickReleased: bool)
    requires st.Valid()
    modifies st
    ensures st.Valid()
    ensures st.View() == old(st.View()).(enabled := old(st.enabled) != (ctrlHeld && backtickReleased))
  {
    if ctrlHeld && backtickReleased {
      st.enabled := !st.enabled;
    }
  }

  /**
   * The checkbox is drawn over a copy of the enabled flag; a click flips that
   * copy and the stored flag once. The copy is not kept, so only the stored
   * flag is modelled.
   */
  method ToggleCheckbox(st: SharedState, clicked: bool)
    requires st.Valid()
    modifies st
    ensures st.Valid()
    ensures st.View() == old(st.View()).(enabled := old(st.enabled) != clicked)
  {
    if clicked {
      st.enabled := !st.enabled;
    }
  }

  /** The clear button empties the queue and leaves every flag as it was. */
  method ClearQueue(st: SharedState, clicked: bool)
    requires st.Valid()
    modifies st
    ensures st.Valid()
    ensures st.View() == if clicked then old(st.View()).(queue := []) else old(st.View())
  {
    if clicked {
      st.queue := [];
    }
  }

  /** After the queue is cleared, the next Ctrl+V finds it empty and turns the tool off. */
  lemma PasteAfterClearDisables(s: Snapshot, writeOk: bool)
    requires s.enabled && s.ctrlPressed
    ensures var o := KeyStep(s.(queue := []), KeyPress(KeyV), writeOk);
            !o.state.enabled && o.popped.None?
  {
  }

  // ---------------------------------------------------------------------
  // Deleting rows

  /** `VecDeque::remove(i)`: element i goes and the rest keep their order; an index past the end changes nothing. */
  function RemoveAt<T>(q: seq<T>, i: nat): (r: seq<T>)
    ensures i >= |q| ==> r == q
    ensures i < |q| ==> |r| == |q| - 1
    ensures i < |q| ==> (forall j :: 0 <= j < i ==> r[j] == q[j]) && (forall j :: i <= j < |r| ==> r[j] == q[j + 1])
  {
    if i < |q| then q[..i] + q[i + 1..] else q
  }

  /** Removing element i takes exactly one copy of it out of the queue's contents. */
  lemma RemoveAtContents<T>(q: seq<T>, i: nat)
    requires i < |q|
    ensures multiset(RemoveAt(q, i)) + multiset{q[i]} == multiset(q)
  {
    assert q == q[..i] + [q[i]] + q[i + 1..];
  }

  /** The removal loop: each index in turn is removed from the queue as it is by then. */
  function RemoveAll<T>(q: seq<T>, indices: seq<nat>): seq<T>
    decreases |indices|
  {
    if indices == [] then q
    else RemoveAt(RemoveAll(q, indices[..|indices| - 1]), indices[|indices| - 1])
  }

  /** Removing rows never adds or duplicates a record, and each index removes at most one. */
  lemma {:induction false} RemoveAllShrinks<T>(q: seq<T>, indices: seq<nat>)
    ensures multiset(RemoveAll(q, indices)) <= multiset(q)
    ensures |q| - |indices| <= |RemoveAll(q, indices)| <= |q|
    decreases |indices|
  {
    if indices != [] {
      var init, last := indices[..|indices| - 1], indices[|indices| - 1];
      RemoveAllShrinks(q, init);
      if last < |RemoveAll(q, init)| {
        RemoveAtContents(RemoveAll(q, init), last);
      }
    }
  }

  /**
   * Indices are applied one after the other: once row i is gone, a later
   * index j refers to the shifted queue, so it removes the row that was at
   * j + 1.
   */
  lemma LaterIndexShifts<T>(q: seq<T>, i: nat, j: nat)
    requires i < j && j + 1 < |q|
    ensures RemoveAll(q, [i, j]) == q[..i] + q[i + 1..j + 1] + q[j + 2..]
  {
    RemoveTwo(q, i, j);
    RemoveAtTwice(q, i, j);
  }

  lemma RemoveAtTwice<T>(q: seq<T>, i: nat, j: nat)
    requires i < j && j + 1 < |q|
    ensures RemoveAt(RemoveAt(q, i), j) == q[..i] + q[i + 1..j + 1] + q[j + 2..]
  {
    var once := RemoveAt(q, i);
    var r, e := RemoveAt(once, j), q[..i] + q[i + 1..j + 1] + q[j + 2..];
    forall k | 0 <= k < |r|
      ensures r[k] == e[k]
    {
      if k < i {
        assert r[k] == once[k] == q[k];
      } else if k < j {
        assert r[k] == once[k] == q[k + 1];
      } else {
        assert r[k] == once[k + 1] == q[k + 2];
      }
    }
  }

  /** Removing two indices is removing the first, then the second. */
  lemma RemoveTwo<T>(q: seq<T>, i: nat, j: nat)
    ensures RemoveAll(q, [i, j]) == RemoveAt(RemoveAt(q, i), j)
  {
    assert [i, j][..1] == [i] && [i][..0] == [];
    assert RemoveAll(q, [i]) == RemoveAt(RemoveAll(q, []), i);
  }

  /** The delete buttons clicked in this frame, as row indices in ascending order. */
  method CollectClicked(clicked: seq<bool>) returns (indices: seq<nat>)
    ensures forall k :: 0 <= k < |indices| ==> indices[k] < |clicked| && clicked[indices[k]]
    ensures forall j :: 0 <= j < |clicked| && clicked[j] ==> j in indices
    ensures forall k, l :: 0 <= k < l < |indices| ==> indices[k] < indices[l]
  {
    indices := [];
    for index := 0 to |clicked|
      invariant forall k :: 0 <= k < |indices| ==> indices[k] < index && clicked[indices[k]]
      invariant forall j :: 0 <= j < index && clicked[j] ==> j in indices
      invariant forall k, l :: 0 <= k < l < |indices| ==> indices[k] < indices[l]
    {
      if clicked[index] {
        indices := indices + [index];
      }
    }
  }

  /** Removes the given rows one after the other. */
  method RemoveRows(st: SharedState, indices: seq<nat>)
    requires st.Valid()
    modifies st
    ensures st.Valid()
    ensures st.View() == old(st.View()).(queue := RemoveAll(old(st.queue), indices))
  {
    for k := 0 to |indices|
      invariant st.Valid()
      invariant st.View() == old(st.View()).(queue := RemoveAll(old(st.queue), indices[..k]))
    {
      assert indices[..k + 1][..k] == indices[..k];
      var before := st.queue;
      st.queue := RemoveAt(st.queue, indices[k]);
      if indices[k] < |before| {
        RemoveAtContents(before, indices[k]);
        forall r | r in st.queue
          ensures r in before
        {
          assert r in multiset(st.queue);
        }
      }
    }
    assert indices[..|indices|] == indices;
  }

  /**
   * One frame of the table: the rows whose delete button was clicked are
   * collected in ascending order and then removed one after the other.
   */
  method ShowTable(st: SharedState, clicked: seq<bool>) returns (removed: seq<nat>)
    requires st.Valid() && |clicked| == |st.queue|
    modifies st
    ensures st.Valid()
    ensures forall j :: j in removed <==> 0 <= j < |clicked| && clicked[j]
    ensures forall k, l :: 0 <= k < l < |removed| ==> removed[k] < removed[l]
    ensures st.View() == old(st.View()).(queue := RemoveAll(old(st.queue), removed))
  {
    removed := CollectClicked(clicked);
    RemoveRows(st, removed);
  }

  // ---------------------------------------------------------------------
  // What a row shows

  /** Number of bytes of the UTF-8 encoding of `c`. */
  function Utf8Width(c: char): nat {
    if c as int < 0x80 then 1
    else if c as int < 0x800 then 2
    else if c as int < 0x1_0000 then 3
    else 4
  }

  /** `str.len()`: the length in bytes of the UTF-8 encoding of `s`. */
  function Utf8Len(s: string): nat {
    if s == [] then 0 else Utf8Width(s[0]) + Utf8Len(s[1..])
  }

  /** Every character takes one to four bytes. */
  lemma {:induction false} Utf8LenBounds(s: string)
    ensures |s| <= Utf8Len(s) <= 4 * |s|
  {
    if s != [] {
      Utf8LenBounds(s[1..]);
    }
  }

  /** A string whose characters all take `w` bytes takes `w` bytes per character. */
  lemma {:induction false} Utf8LenUniform(s: string, w: nat)
    requires forall i :: 0 <= i < |s| ==> Utf8Width(s[i]) == w
    ensures Utf8Len(s) == w * |s|
  {
    if s != [] {
      Utf8LenUniform(s[1..], w);
    }
  }

  /** `chars().take(n)`: the first `n` characters, or all of them when there are fewer. */
  function Take(s: string, n: nat): (r: string)
    ensures |r| <= n && |r| <= |s| && r == s[..|r|]
    ensures |r| < n ==> r == s
  {
    if |s| <= n then s else s[..n]
  }

  /**
   * The text a row shows: the first MAX_TEXT characters, followed by "..."
   * when the string is longer than MAX_TEXT bytes.
   */
  function DisplayText(s: string): string {
    var shown := Take(s, MAX_TEXT);
    if Utf8Len(s) > MAX_TEXT then shown + "..." else shown
  }

  /**
   * "..." follows the shown characters exactly when the string is longer
   * than MAX_TEXT bytes. So a string longer than MAX_TEXT characters is cut
   * and marked, and a string of at most MAX_TEXT bytes is shown whole.
   */
  lemma DisplayTextCuts(s: string)
    ensures DisplayText(s) == Take(s, MAX_TEXT) + "..." <==> Utf8Len(s) > MAX_TEXT
    ensures |s| > MAX_TEXT ==> DisplayText(s) == s[..MAX_TEXT] + "..."
    ensures Utf8Len(s) <= MAX_TEXT ==> DisplayText(s) == s
  {
    Utf8LenBounds(s);
    assert |Take(s, MAX_TEXT) + "..."| == |Take(s, MAX_TEXT)| + 3;
  }

  /** The row shows either the whole string, or its first MAX_TEXT characters marked with "...". */
  predicate HonestDisplay(s: string, d: string) {
    d == s || (|s| > MAX_TEXT && d == s[..MAX_TEXT] + "...")
  }

  /** 51 characters of three bytes each are shown whole, yet marked with "...". */
  lemma EllipsisWithoutCut()
    ensures var s := seq(51, _ => '中');
            DisplayText(s) == s + "..." && !HonestDisplay(s, DisplayText(s))
  {
    var s := seq(51, _ => '中');
    Utf8LenUniform(s, 3);
    assert "..." != [];
    assert |s + "..."| != |s|;
  }

  /** The display rule counting characters instead of bytes. */
  function DisplayTextByChars(s: string): string {
    var shown := Take(s, MAX_TEXT);
    if |s| > MAX_TEXT then shown + "..." else shown
  }

  /**
   * Counting characters, "..." is appended exactly when characters are hidden;
   * on ASCII text both rules show the same.
   */
  lemma DisplayTextByCharsHonest(s: string)
    ensures HonestDisplay(s, DisplayTextByChars(s))
    ensures DisplayTextByChars(s) == Take(s, MAX_TEXT) + "..." <==> |s| > MAX_TEXT
    ensures (forall i :: 0 <= i < |s| ==> s[i] as int < 0x80) ==> DisplayTextByChars(s) == DisplayText(s)
  {
    if forall i :: 0 <= i < |s| ==> s[i] as int < 0x80 {
      Utf8LenUniform(s, 1);
    }
    if |s| <= MAX_TEXT {
      assert |Take(s, MAX_TEXT) + "..."| == |s| + 3;
    }
  }

  /** The content cell of a row. */
  datatype Cell = TextCell(text: string) | ImageCell(image: ColorImage) | EmptyCell

  /** Text formats show their trimmed text, bitmaps their preview, other formats nothing. */
  function RowCell(r: ContentRecord): Cell {
    if IsText(r.GetType()) then TextCell(DisplayText(r.GetData()))
    else if r.GetType() == CF_DIB then ImageCell(r.GetImage())
    else EmptyCell
  }

  /**
   * A queued record always shows something. A text record shows its trimmed
   * text: whole when it fits in MAX_TEXT bytes, its first MAX_TEXT characters
   * and "..." when it has more characters than that, and "..." exactly when
   * it has more than MAX_TEXT bytes. An image record shows the preview
   * decoded from its bytes, never the empty default image.
   */
  lemma QueuedRowCell(r: ContentRecord, md5Of: seq<Byte> -> Digest)
    requires Captured(r, md5Of)
    ensures RowCell(r) != EmptyCell
    ensures IsText(r.dataType) ==> RowCell(r) == TextCell(DisplayText(Trim(r.data.value)))
    ensures IsText(r.dataType) ==>
              var d := r.GetData();
              (RowCell(r).text == Take(d, MAX_TEXT) + "..." <==> Utf8Len(d) > MAX_TEXT) &&
              (|d| > MAX_TEXT ==> RowCell(r).text == d[..MAX_TEXT] + "...") &&
              (Utf8Len(d) <= MAX_TEXT ==> RowCell(r).text == d)
    ensures r.dataType == CF_DIB ==> RowCell(r) == ImageCell(Decode(r.raw).value)
  {
    if IsText(r.dataType) {
      var d := r.GetData();
      DisplayTextCuts(d);
      assert RowCell(r) == TextCell(DisplayText(d));
    } else {
      assert r.dataType == CF_DIB && r.img.Some?;
    }
  }

  /** The row cell with the character-counting rule. */
  function CorrectedRowCell(r: ContentRecord): Cell {
    if IsText(r.GetType()) then TextCell(DisplayTextByChars(r.GetData()))
    else RowCell(r)
  }

  /**
   * With the corrected rule a queued text record shows its trimmed text whole,
   * or its first MAX_TEXT characters marked with "..." exactly when more are
   * hidden; an ASCII text and every other record show as before.
   */
  lemma QueuedCorrectedRowCell(r: ContentRecord, md5Of: seq<Byte> -> Digest)
    requires Captured(r, md5Of)
    ensures CorrectedRowCell(r) != EmptyCell
    ensures IsText(r.dataType) ==> HonestDisplay(r.GetData(), CorrectedRowCell(r).text)
    ensures !IsText(r.dataType) ==> CorrectedRowCell(r) == RowCell(r)
    ensures (forall i :: 0 <= i < |r.GetData()| ==> r.GetData()[i] as int < 0x80) ==> CorrectedRowCell(r) == RowCell(r)
  {
    QueuedRowCell(r, md5Of);
    if IsText(r.dataType) {
      var d := r.GetData();
      DisplayTextByCharsHonest(d);
      assert CorrectedRowCell(r) == TextCell(DisplayTextByChars(d));
    }
  }
}
