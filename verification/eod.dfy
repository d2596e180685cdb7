/** The end-of-day checklist: rows of text, each with a done checkbox, kept
    in browser storage and reordered by dragging. The list in memory and the
    checkboxes on the page are modelled together, so that what the page shows
    can be compared with what is saved. */
module Eod {
  import opened JsText

  datatype Item = Item(id: string, text: string, done: bool)

  /** What a row's checkbox shows: ticked, and greyed out. */
  datatype Row = Row(checked: bool, disabled: bool)

  /** The list in memory and the rows on the page; row `k` belongs to item `k`. */
  datatype Screen = Screen(items: seq<Item>, rows: seq<Row>)

  /** How many empty rows a new list starts with. */
  const DefaultRows: nat := 15

  predicate DistinctIds(items: seq<Item>) {
    forall i, j :: 0 <= i < j < |items| ==> items[i].id != items[j].id
  }

  /** An empty row is never done. */
  predicate NoBlankDone(items: seq<Item>) {
    forall k :: 0 <= k < |items| ==> IsBlank(items[k].text) ==> !items[k].done
  }

  /** The page agrees with the list: one row per item, a checkbox is disabled
      exactly when its row's text is blank, and ticked exactly when its item
      is done. */
  predicate Consistent(s: Screen) {
    && |s.rows| == |s.items|
    && NoBlankDone(s.items)
    && forall k :: 0 <= k < |s.items| ==>
         s.rows[k].disabled == IsBlank(s.items[k].text) && s.rows[k].checked == s.items[k].done
  }

  // ---------- Storage ----------

  /** `load()`: the saved list if there is a non-empty one, otherwise fifteen
      empty rows whose ids are taken from `drawn`, the `uid()` values.
      `None` stands for nothing saved, `null`, or text that does not parse. */
  function Load(stored: Option<seq<Item>>, drawn: seq<string>): (r: seq<Item>)
    requires |drawn| >= DefaultRows
    ensures |r| > 0
    ensures stored.Some? && |stored.value| > 0 ==> r == stored.value
    ensures stored.None? || |stored.value| == 0 ==>
              && |r| == DefaultRows
              && forall k :: 0 <= k < |r| ==> r[k].id == drawn[k] && r[k].text == "" && !r[k].done
  {
    if stored.Some? && |stored.value| > 0 then stored.value
    else seq(DefaultRows, k requires 0 <= k < DefaultRows => Item(drawn[k], "", false))
  }

  /** A saved list comes back as it was saved: `save()` writes every item and
      `load()` returns a non-empty list untouched. */
  lemma SaveLoad(items: seq<Item>, drawn: seq<string>)
    requires |drawn| >= DefaultRows && |items| > 0
    ensures Load(Some(items), drawn) == items
  {
  }

  /** The default rows are empty and not done, and distinct when the drawn
      ids are. */
  lemma DefaultRowsBlank(drawn: seq<string>)
    requires |drawn| >= DefaultRows
    ensures var r := Load(None, drawn);
            && NoBlankDone(r)
            && (forall k :: 0 <= k < |r| ==> IsBlank(r[k].text))
            && (DistinctIds(r) <==> forall i, j :: 0 <= i < j < DefaultRows ==> drawn[i] != drawn[j])
  {
  }

  // ---------- Rendering ----------

  /** What `renderItem` does to an item: an empty row is set to not done. */
  function Normalize(it: Item): (r: Item)
    ensures r.id == it.id && r.text == it.text
    ensures r.done == (it.done && !IsBlank(it.text))
  {
    if IsBlank(it.text) then it.(done := false) else it
  }

  /** The corrected `render()`: every item is drawn, an empty row gets a
      disabled checkbox and is set to not done, and the checkbox shows the
      item's done flag after that reset. The source ticks the checkbox
      before the reset; that order is RenderAsWritten. */
  function Render(items: seq<Item>): (s: Screen)
    ensures Consistent(s)
    ensures |s.items| == |items|
    ensures forall k :: 0 <= k < |items| ==> s.items[k] == Normalize(items[k])
  {
    var its := seq(|items|, k requires 0 <= k < |items| => Normalize(items[k]));
    Screen(its, seq(|its|, k requires 0 <= k < |its| => Row(its[k].done, IsBlank(its[k].text))))
  }

  /** `render()` as written: the checkbox takes the done flag before an empty
      row's flag is reset. */
  function RenderAsWritten(items: seq<Item>): (s: Screen)
    ensures |s.items| == |s.rows| == |items|
    ensures forall k :: 0 <= k < |items| ==>
              s.items[k] == Normalize(items[k]) && s.rows[k] == Row(items[k].done, IsBlank(items[k].text))
  {
    var its := seq(|items|, k requires 0 <= k < |items| => Normalize(items[k]));
    Screen(its, seq(|items|, k requires 0 <= k < |items| => Row(items[k].done, IsBlank(items[k].text))))
  }

  /** A list that already keeps empty rows not done is left as it is, so
      drawing twice is drawing once. */
  lemma RenderKeepsNormalized(items: seq<Item>)
    ensures NoBlankDone(items) <==> Render(items).items == items
    ensures Render(Render(items).items) == Render(items)
  {
    if NoBlankDone(items) {
      assert Render(items).items == items;
    }
    if Render(items).items == items {
      forall k | 0 <= k < |items| && IsBlank(items[k].text)
        ensures !items[k].done
      {
        assert Render(items).items[k] == items[k];
      }
    }
  }

  /** The two renderings differ exactly on an empty row saved as done. */
  lemma RenderAsWrittenDiffers(items: seq<Item>)
    ensures Render(items).items == RenderAsWritten(items).items
    ensures (RenderAsWritten(items) == Render(items)) <==> NoBlankDone(items)
  {
    var a := RenderAsWritten(items);
    var b := Render(items);
    if !NoBlankDone(items) {
      var k :| 0 <= k < |items| && IsBlank(items[k].text) && items[k].done;
      assert a.rows[k] != b.rows[k];
    }
  }

  /** An empty row saved as done is drawn ticked as written, although its item
      is no longer done; typing into it then enables a ticked checkbox over
      an item that is not done. */
  lemma StaleTick()
    ensures var s := RenderAsWritten([Item("a", "", true)]);
            && s.rows[0] == Row(true, true) && !s.items[0].done && !Consistent(s)
            && var t := OnInput(s, 0, "x");
               t.rows[0] == Row(true, false) && t.items[0] == Item("a", "x", false)
  {
    var s := RenderAsWritten([Item("a", "", true)]);
    assert IsBlank("");
    assert !IsBlank("x") by { assert !IsJsWhitespace("x"[0]); }
    assert s.rows[0] == Row(true, true);
    var t := OnInput(s, 0, "x");
    assert FindIndex(s.items, "a") == Some(0);
  }

  // ---------- Looking items up ----------

  /** `items.findIndex(x => x.id === id)`; `None` stands for `-1`. */
  function FindIndex(items: seq<Item>, id: string): (r: Option<nat>)
    ensures r.Some? ==> r.value < |items| && items[r.value].id == id
    ensures r.Some? ==> forall j :: 0 <= j < r.value ==> items[j].id != id
    ensures r.None? <==> forall j :: 0 <= j < |items| ==> items[j].id != id
  {
    if |items| == 0 then None
    else if items[0].id == id then Some(0)
    else match FindIndex(items[1..], id)
      case None => None
      case Some(i) => Some(i + 1)
  }

  /** `items.find(x => x.id === id)`; `None` stands for `undefined`. */
  function Find(items: seq<Item>, id: string): (r: Option<Item>)
    ensures r.Some? <==> FindIndex(items, id).Some?
    ensures r.Some? ==> r.value == items[FindIndex(items, id).value]
  {
    match FindIndex(items, id)
    case None => None
    case Some(i) => Some(items[i])
  }

  /** With distinct ids, the item at `k` is the one found by its id. */
  lemma FindDistinct(items: seq<Item>, k: int)
    requires DistinctIds(items) && 0 <= k < |items|
    ensures FindIndex(items, items[k].id) == Some(k)
  {
  }

  // ---------- Mutations ----------

  /** `addItem(text)`: a new not-done item with the drawn id `id` goes last. */
  function AddItem(items: seq<Item>, id: string, text: string): (r: seq<Item>)
    ensures |r| == |items| + 1 && r[..|items|] == items
    ensures r[|items|] == Item(id, text, false)
  {
    items + [Item(id, text, false)]
  }

  /** `removeItem(id)`: the first item with that id is spliced out; nothing
      happens when there is none. */
  function RemoveItem(items: seq<Item>, id: string): (r: seq<Item>)
    ensures (forall j :: 0 <= j < |items| ==> items[j].id != id) ==> r == items
    ensures forall i :: 0 <= i < |items| && items[i].id == id && (forall j :: 0 <= j < i ==> items[j].id != id)
              ==> r == items[..i] + items[i + 1..]
  {
    match FindIndex(items, id)
    case None => items
    case Some(i) => items[..i] + items[i + 1..]
  }

  /** Removing an item just added with a drawn id gives the list back. */
  lemma RemoveAfterAdd(items: seq<Item>, id: string, text: string)
    requires forall j :: 0 <= j < |items| ==> items[j].id != id
    ensures RemoveItem(AddItem(items, id, text), id) == items
  {
    var r := AddItem(items, id, text);
    assert r[..|items|] + r[|items| + 1..] == items;
  }

  /** `updateText(id, text)`: the first item with that id gets the text;
      nothing happens when there is none. */
  function UpdateText(items: seq<Item>, id: string, text: string): (r: seq<Item>)
    ensures |r| == |items|
    ensures forall k :: 0 <= k < |items| ==>
              r[k] == if items[k].id == id && (forall j :: 0 <= j < k ==> items[j].id != id)
                      then items[k].(text := text) else items[k]
  {
    match FindIndex(items, id)
    case None => items
    case Some(i) => items[i := items[i].(text := text)]
  }

  /** The later text wins: updating twice is updating once with the second text. */
  lemma UpdateTextTwice(items: seq<Item>, id: string, a: string, b: string)
    ensures UpdateText(UpdateText(items, id, a), id, b) == UpdateText(items, id, b)
  {
    var once := UpdateText(items, id, a);
    assert forall k :: 0 <= k < |items| ==> once[k].id == items[k].id;
  }

  /** The clear button's list: every item keeps its id, its text is emptied
      and it is set to not done. */
  function ClearAll(items: seq<Item>): (r: seq<Item>)
    ensures |r| == |items|
    ensures forall k :: 0 <= k < |r| ==> r[k] == Item(items[k].id, "", false)
  {
    seq(|items|, k requires 0 <= k < |items| => items[k].(text := "", done := false))
  }

  /** Clearing twice is clearing once, and a cleared list draws every
      checkbox unticked and disabled. */
  lemma ClearIdempotent(items: seq<Item>)
    ensures ClearAll(ClearAll(items)) == ClearAll(items)
    ensures var s := Render(ClearAll(items));
            s.items == ClearAll(items) && forall k :: 0 <= k < |s.rows| ==> s.rows[k] == Row(false, true)
  {
    var c := ClearAll(items);
    assert forall k :: 0 <= k < |c| ==> IsBlank(c[k].text);
  }

  // ---------- Reordering ----------

  /** `order.map(id => items.find(x => x.id === id)).filter(Boolean)`: the
      item found for each id of `order`, ids with no item dropped. */
  function Reorder(items: seq<Item>, order: seq<string>): (r: seq<Item>)
    ensures |r| <= |order|
    ensures forall x :: x in r ==> x in items && x.id in order
    ensures (forall k :: 0 <= k < |order| ==> FindIndex(items, order[k]).Some?) ==>
              |r| == |order| && forall k :: 0 <= k < |r| ==> Find(items, order[k]) == Some(r[k])
  {
    if |order| == 0 then []
    else
      var rest := Reorder(items, order[1..]);
      match Find(items, order[0])
      case None => rest
      case Some(x) => [x] + rest
  }

  /** `perm` lists every index below `n` exactly once. */
  predicate IsPermutation(perm: seq<nat>, n: nat) {
    && |perm| == n
    && (forall k :: 0 <= k < n ==> perm[k] < n)
    && (forall i, j :: 0 <= i < j < n ==> perm[i] != perm[j])
    && (forall j :: 0 <= j < n ==> j in perm)
  }

  /** The `dragend` handler. The rows on the page are already in their new
      order: row `k` is the row that was at `perm[k]`. The list is rebuilt by
      looking up, in the old list, the id each row carries. */
  function DragEnd(s: Screen, perm: seq<nat>): (r: Screen)
    requires |s.rows| == |s.items|
    requires forall k :: 0 <= k < |perm| ==> perm[k] < |s.items|
    ensures |r.rows| == |perm| && |r.items| <= |perm|
  {
    Screen(Reorder(s.items, IdsAt(s.items, perm)), seq(|perm|, k requires 0 <= k < |perm| => s.rows[perm[k]]))
  }

  /** The ids of the rows in their new order. */
  function IdsAt(items: seq<Item>, perm: seq<nat>): (ids: seq<string>)
    requires forall k :: 0 <= k < |perm| ==> perm[k] < |items|
    ensures |ids| == |perm| && forall k :: 0 <= k < |perm| ==> ids[k] == items[perm[k]].id
  {
    seq(|perm|, k requires 0 <= k < |perm| => items[perm[k]].id)
  }

  /** A sequence without repeated elements. */
  predicate Distinct(a: seq<Item>) {
    forall i, j :: 0 <= i < j < |a| ==> a[i] != a[j]
  }

  lemma {:induction false} DistinctCount(a: seq<Item>, x: Item)
    requires Distinct(a)
    ensures multiset(a)[x] == if x in a then 1 else 0
    decreases |a|
  {
    if |a| > 0 {
      var init := a[..|a| - 1];
      assert a == init + [a[|a| - 1]];
      assert Distinct(init);
      DistinctCount(init, x);
      assert a[|a| - 1] !in init;
    }
  }

  /** Two sequences without repeats holding the same elements are
      permutations of each other. */
  lemma SameElementsPermute(a: seq<Item>, b: seq<Item>)
    requires Distinct(a) && Distinct(b)
    requires forall x :: x in a <==> x in b
    ensures multiset(a) == multiset(b)
  {
    forall x
      ensures multiset(a)[x] == multiset(b)[x]
    {
      DistinctCount(a, x);
      DistinctCount(b, x);
    }
  }

  /** `a` rearranged by `perm`. */
  function Permuted(a: seq<Item>, perm: seq<nat>): (r: seq<Item>)
    requires forall k :: 0 <= k < |perm| ==> perm[k] < |a|
    ensures |r| == |perm| && forall k :: 0 <= k < |perm| ==> r[k] == a[perm[k]]
  {
    seq(|perm|, k requires 0 <= k < |perm| => a[perm[k]])
  }

  /** Rearranging by a permutation keeps the elements and, with no repeats,
      gives a permutation in the multiset sense too. */
  lemma PermutedElements(a: seq<Item>, perm: seq<nat>)
    requires IsPermutation(perm, |a|) && Distinct(a)
    ensures Distinct(Permuted(a, perm))
    ensures multiset(Permuted(a, perm)) == multiset(a)
  {
    var p := Permuted(a, perm);
    forall x
      ensures x in p <==> x in a
    {
      if x in a {
        var j :| 0 <= j < |a| && a[j] == x;
        assert j in perm;
        var k :| 0 <= k < |perm| && perm[k] == j;
        assert p[k] == x;
      }
    }
    SameElementsPermute(p, a);
  }

  /** With distinct ids and every row still on the page, the rebuilt list
      is the old list in the rows' new order. */
  lemma DragEndItems(s: Screen, perm: seq<nat>)
    requires |s.rows| == |s.items| && DistinctIds(s.items)
    requires forall k :: 0 <= k < |perm| ==> perm[k] < |s.items|
    ensures DragEnd(s, perm).items == Permuted(s.items, perm)
  {
    IdsFound(s.items, perm);
  }

  /** With distinct ids, each id in the new order finds the item it was
      taken from. */
  lemma IdsFound(items: seq<Item>, perm: seq<nat>)
    requires DistinctIds(items)
    requires forall k :: 0 <= k < |perm| ==> perm[k] < |items|
    ensures Reorder(items, IdsAt(items, perm)) == Permuted(items, perm)
  {
    var order := IdsAt(items, perm);
    forall k | 0 <= k < |order|
      ensures FindIndex(items, order[k]) == Some(perm[k])
    {
      FindDistinct(items, perm[k]);
    }
    var r := Reorder(items, order);
    assert |r| == |perm|;
    forall k | 0 <= k < |perm|
      ensures r[k] == items[perm[k]]
    {
      assert Find(items, order[k]) == Some(r[k]);
    }
  }

  /** Dragging keeps the page and the list in step: with distinct ids the
      new list is the old list in the rows' new order, a permutation of it. */
  lemma DragEndPermutes(s: Screen, perm: seq<nat>)
    requires Consistent(s) && DistinctIds(s.items) && IsPermutation(perm, |s.items|)
    ensures var r := DragEnd(s, perm);
            && Consistent(r)
            && DistinctIds(r.items)
            && r.items == Permuted(s.items, perm)
            && multiset(r.items) == multiset(s.items)
  {
    DragEndItems(s, perm);
    assert Distinct(s.items);
    PermutedElements(s.items, perm);
  }

  // ---------- Event handlers ----------

  /** The text box's `input` handler for row `i`: the text is stored with
      `updateText`; a row turned blank has its checkbox unticked and disabled
      and its item set to not done, and a row no longer blank gets its
      checkbox enabled. */
  function OnInput(s: Screen, i: nat, value: string): (r: Screen)
    requires i < |s.items| == |s.rows|
    ensures |r.items| == |s.items| && |r.rows| == |s.rows|
    ensures forall k :: 0 <= k < |s.items| ==> r.items[k].id == s.items[k].id
    ensures forall k :: 0 <= k < |s.items| && k != i ==>
              r.items[k] == UpdateText(s.items, s.items[i].id, value)[k] && r.rows[k] == s.rows[k]
    ensures r.items[i] == if IsBlank(value) && !s.rows[i].disabled
                          then UpdateText(s.items, s.items[i].id, value)[i].(done := false)
                          else UpdateText(s.items, s.items[i].id, value)[i]
    ensures IsBlank(value) ==> r.rows[i] == (if s.rows[i].disabled then s.rows[i] else Row(false, true))
    ensures !IsBlank(value) ==> r.rows[i] == Row(s.rows[i].checked, false)
  {
    var items := UpdateText(s.items, s.items[i].id, value);
    if IsBlank(value) then
      if !s.rows[i].disabled then Screen(items[i := items[i].(done := false)], s.rows[i := Row(false, true)])
      else Screen(items, s.rows)
    else if s.rows[i].disabled then Screen(items, s.rows[i := s.rows[i].(disabled := false)])
    else Screen(items, s.rows)
  }

  /** Typing keeps the page and the list in step, when row `i` holds the
      first item with its id: that item takes the text, and stays done only
      if the text is not blank; every other item is untouched. */
  lemma InputKeepsConsistent(s: Screen, i: nat, value: string)
    requires Consistent(s) && i < |s.items|
    requires FindIndex(s.items, s.items[i].id) == Some(i)
    ensures var r := OnInput(s, i, value);
            && Consistent(r)
            && r.items[i] == Item(s.items[i].id, value, s.items[i].done && !IsBlank(value))
            && forall k :: 0 <= k < |s.items| && k != i ==> r.items[k] == s.items[k]
  {
    var items := UpdateText(s.items, s.items[i].id, value);
    assert items == s.items[i := s.items[i].(text := value)];
  }

  /** The checkbox's `change` handler for row `i`: a disabled checkbox cannot
      be clicked; otherwise the item's done flag follows the tick. */
  function OnChange(s: Screen, i: nat, checked: bool): (r: Screen)
    requires i < |s.items| == |s.rows|
    ensures |r.items| == |s.items| && |r.rows| == |s.rows|
    ensures s.rows[i].disabled ==> r == s
    ensures !s.rows[i].disabled ==> r.items[i].done == checked && r.rows[i].checked == checked
    ensures r.items[i].id == s.items[i].id && r.items[i].text == s.items[i].text
    ensures r.rows[i].disabled == s.rows[i].disabled
    ensures forall k :: 0 <= k < |s.items| && k != i ==> r.items[k] == s.items[k] && r.rows[k] == s.rows[k]
  {
    if s.rows[i].disabled then s
    else Screen(s.items[i := s.items[i].(done := checked)], s.rows[i := s.rows[i].(checked := checked)])
  }

  /** Ticking keeps the page and the list in step: an empty row can never be
      made done. */
  lemma ChangeKeepsConsistent(s: Screen, i: nat, checked: bool)
    requires Consistent(s) && i < |s.items|
    ensures Consistent(OnChange(s, i, checked))
  {
  }

  /** The clear button: after the user confirms, every text is emptied, every
      item set to not done, and the list drawn again by `render()` as
      written, which a cleared list cannot trip up. */
  function OnClear(s: Screen, confirmed: bool): (r: Screen)
    ensures !confirmed ==> r == s
    ensures confirmed ==> Consistent(r) && |r.items| == |s.items|
    ensures confirmed ==> forall k :: 0 <= k < |r.items| ==>
              r.items[k] == Item(s.items[k].id, "", false) && r.rows[k] == Row(false, true)
  {
    if confirmed then
      ClearIdempotent(s.items);
      ClearedHasNoBlankDone(s.items);
      RenderAsWrittenDiffers(ClearAll(s.items));
      RenderAsWritten(ClearAll(s.items))
    else s
  }

  /** A cleared list has no item that is done. */
  lemma ClearedHasNoBlankDone(items: seq<Item>)
    ensures NoBlankDone(ClearAll(items))
  {
  }

  /** Start-up: `load()` then `render()` as written. The list in memory is
      the one `Render` gives; the page agrees with it unless a saved empty
      row was saved as done, and always on the default rows. */
  function Start(stored: Option<seq<Item>>, drawn: seq<string>): (r: Screen)
    requires |drawn| >= DefaultRows
    ensures |r.items| > 0
    ensures r.items == Render(Load(stored, drawn)).items
    ensures Consistent(r) <==> NoBlankDone(Load(stored, drawn))
    ensures stored.None? ==> Consistent(r)
  {
    var items := Load(stored, drawn);
    RenderAsWrittenDiffers(items);
    RenderKeepsConsistentOnlyIfClean(items);
    DefaultRowsBlank(drawn);
    RenderAsWritten(items)
  }

  /** Start-up with `render()` drawing the checkbox after an empty row's done
      flag is reset: the same list, and a page that always agrees with it. */
  function StartIntended(stored: Option<seq<Item>>, drawn: seq<string>): (r: Screen)
    requires |drawn| >= DefaultRows
    ensures Consistent(r) && |r.items| > 0
    ensures r.items == Start(stored, drawn).items
    ensures r == Start(stored, drawn) <==> NoBlankDone(Load(stored, drawn))
  {
    RenderAsWrittenDiffers(Load(stored, drawn));
    Render(Load(stored, drawn))
  }

  /** Drawn as written, the page agrees with the list exactly when no empty
      row was done: such a row shows a ticked checkbox over an item that is
      no longer done. */
  lemma RenderKeepsConsistentOnlyIfClean(items: seq<Item>)
    ensures Consistent(RenderAsWritten(items)) <==> NoBlankDone(items)
  {
    RenderAsWrittenDiffers(items);
    var a := RenderAsWritten(items);
    if !NoBlankDone(items) {
      var k :| 0 <= k < |items| && IsBlank(items[k].text) && items[k].done;
      assert a.rows[k].checked != a.items[k].done;
    }
  }
}
