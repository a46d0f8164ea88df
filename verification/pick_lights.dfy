/** The light picker dialog: a sectioned list (a header row per section followed by
    its items) flattened into positions, a list of selected positions, and the OK
    handler that turns the selection back into groups and lights. */
module PickLights {
  import opened Wrappers
  import opened Seqs

  /** `HEADER_TYPE` and `ITEM_TYPE`. */
  const HeaderType: int := 0
  const ItemType: int := 1

  datatype Section = Section(name: string, items: seq<string>)

  /** The sections, and the flat positions that are checked (a list, so it may repeat). */
  datatype Adapter = Adapter(sections: seq<Section>, selected: seq<int>)

  /** One row of the flattened list: a section's header or item `index` of a section. */
  datatype Cell = HeaderCell(section: nat, text: string) | ItemCell(section: nat, index: nat, text: string)

  function Empty(): Adapter
  {
    Adapter([], [])
  }

  function ItemCounts(ss: seq<Section>): (r: seq<nat>)
    ensures |r| == |ss| && forall i :: 0 <= i < |ss| ==> r[i] == |ss[i].items|
  {
    seq(|ss|, i requires 0 <= i < |ss| => |ss[i].items|)
  }

  /** `getItemCount`: one header per section plus all items. */
  function ItemCount(a: Adapter): nat
  {
    |a.sections| + Sum(ItemCounts(a.sections))
  }

  /** The flat position of section `s`'s header: one row for each earlier header and
      each earlier item. */
  function HeaderPos(ss: seq<Section>, s: nat): nat
    requires s <= |ss|
  {
    s + Sum(ItemCounts(ss[..s]))
  }

  /** A section's rows: its header, then one row per item. */
  function Rows(sec: Section, s: nat): (r: seq<Cell>)
    ensures |r| == 1 + |sec.items|
    ensures r[0] == HeaderCell(s, sec.name)
    ensures forall k :: 0 <= k < |sec.items| ==> r[1 + k] == ItemCell(s, k, sec.items[k])
  {
    [HeaderCell(s, sec.name)] + seq(|sec.items|, k requires 0 <= k < |sec.items| => ItemCell(s, k, sec.items[k]))
  }

  /** The rows in display order, as `getItem` and `getItemViewType` flatten them. */
  function Layout(ss: seq<Section>): seq<Cell>
  {
    if |ss| == 0 then [] else Layout(ss[..|ss| - 1]) + Rows(ss[|ss| - 1], |ss| - 1)
  }

  /** `getItem`: the header or item text at a position. */
  function GetItem(a: Adapter, position: int): (r: Result<string>)
    ensures r.Ok? <==> 0 <= position < ItemCount(a)
    ensures r.Failure? ==> r.fault == IndexOutOfBounds
  {
    ItemCountIsLength(a);
    var cells := Layout(a.sections);
    if 0 <= position < |cells| then Ok(cells[position].text) else Failure(IndexOutOfBounds)
  }

  /** `getItemViewType`. */
  function GetItemViewType(a: Adapter, position: int): (r: Result<int>)
    ensures r.Ok? <==> 0 <= position < ItemCount(a)
    ensures r.Ok? ==> r.value == HeaderType || r.value == ItemType
  {
    ItemCountIsLength(a);
    var cells := Layout(a.sections);
    if 0 <= position < |cells| then Ok(if cells[position].HeaderCell? then HeaderType else ItemType)
    else Failure(IndexOutOfBounds)
  }

  lemma {:induction false} HeaderPosPrefix(ss: seq<Section>, m: nat, s: nat)
    requires s <= m <= |ss|
    ensures HeaderPos(ss[..m], s) == HeaderPos(ss, s)
  {
    assert ss[..m][..s] == ss[..s];
  }

  /** Each section takes its header row and one row per item. */
  lemma {:induction false} HeaderPosNext(ss: seq<Section>, s: nat)
    requires s < |ss|
    ensures HeaderPos(ss, s + 1) == HeaderPos(ss, s) + 1 + |ss[s].items|
  {
    assert ItemCounts(ss[..s + 1])[..s] == ItemCounts(ss[..s]);
  }

  lemma {:induction false} HeaderPosMonotone(ss: seq<Section>, s: nat, t: nat)
    requires s <= t <= |ss|
    ensures HeaderPos(ss, s) + (t - s) <= HeaderPos(ss, t)
    ensures s < t ==> HeaderPos(ss, s) + 1 + |ss[s].items| <= HeaderPos(ss, t)
    decreases t - s
  {
    if s < t {
      HeaderPosNext(ss, s);
      HeaderPosMonotone(ss, s + 1, t);
    }
  }

  /** Cell `c` is at position `p`: headers at their header position, item k of section s
      k + 1 rows further down. */
  ghost predicate Placed(ss: seq<Section>, c: Cell, p: int)
  {
    match c
    case HeaderCell(s, text) => s < |ss| && p == HeaderPos(ss, s) && text == ss[s].name
    case ItemCell(s, k, text) => s < |ss| && k < |ss[s].items| && p == HeaderPos(ss, s) + 1 + k && text == ss[s].items[k]
  }

  /** The layout has one row per header and per item. */
  lemma {:induction false} LayoutLength(ss: seq<Section>)
    ensures |Layout(ss)| == HeaderPos(ss, |ss|)
  {
    if |ss| > 0 {
      var n := |ss| - 1;
      LayoutLength(ss[..n]);
      HeaderPosNext(ss, n);
      HeaderPosPrefix(ss, n, n);
      assert ss[..n][..n] == ss[..n];
    }
  }

  /** Every row sits at its computed place. */
  lemma {:induction false} LayoutPlaced(ss: seq<Section>, p: int)
    requires 0 <= p < |Layout(ss)|
    ensures Placed(ss, Layout(ss)[p], p)
  {
    var n := |ss| - 1;
    var front := ss[..n];
    LayoutLength(front);
    HeaderPosPrefix(ss, n, n);
    assert front[..n] == front;
    var base := |Layout(front)|;
    if p < base {
      LayoutPlaced(front, p);
      assert Layout(ss)[p] == Layout(front)[p];
      match Layout(ss)[p]
      case HeaderCell(s, _) => HeaderPosPrefix(ss, n, s);
      case ItemCell(s, _, _) => HeaderPosPrefix(ss, n, s);
    } else {
      assert Layout(ss)[p] == Rows(ss[n], n)[p - base];
      if p > base {
        assert Rows(ss[n], n)[p - base] == Rows(ss[n], n)[1 + (p - base - 1)];
      }
    }
  }

  /** Section s's header is at its header position, and its item j is j + 1 rows below. */
  lemma {:induction false} LayoutAt(ss: seq<Section>, s: nat, j: int)
    requires s < |ss| && -1 <= j < |ss[s].items|
    ensures HeaderPos(ss, s) + 1 + j < |Layout(ss)|
    ensures Layout(ss)[HeaderPos(ss, s) + 1 + j] == if j == -1 then HeaderCell(s, ss[s].name) else ItemCell(s, j, ss[s].items[j])
  {
    var n := |ss| - 1;
    var front := ss[..n];
    LayoutLength(front);
    HeaderPosPrefix(ss, n, n);
    assert front[..n] == front;
    HeaderPosNext(ss, n);
    LayoutLength(ss);
    assert ss[..|ss|] == ss;
    var base := |Layout(front)|;
    if s == n {
      assert Layout(ss)[HeaderPos(ss, s) + 1 + j] == Rows(ss[n], n)[1 + j];
    } else {
      LayoutAt(front, s, j);
      HeaderPosPrefix(ss, n, s);
      HeaderPosNext(front, s);
      HeaderPosMonotone(front, s + 1, n);
      assert Layout(ss)[HeaderPos(ss, s) + 1 + j] == Layout(front)[HeaderPos(ss, s) + 1 + j];
    }
  }

  /** getItemCount is the length of the flattened list of rows. */
  lemma {:induction false} ItemCountIsLength(a: Adapter)
    ensures ItemCount(a) == |Layout(a.sections)|
  {
    LayoutLength(a.sections);
    assert a.sections[..|a.sections|] == a.sections;
  }

  /** Position p is a header row exactly when it is some section's first position. */
  lemma {:induction false} HeaderIff(a: Adapter, p: int)
    ensures GetItemViewType(a, p) == Ok(HeaderType) <==> exists s :: 0 <= s < |a.sections| && p == HeaderPos(a.sections, s)
  {
    var ss := a.sections;
    if 0 <= p < |Layout(ss)| {
      LayoutPlaced(ss, p);
      if Layout(ss)[p].HeaderCell? {
        var s := Layout(ss)[p].section;
        assert s < |ss| && p == HeaderPos(ss, s);
      }
    }
    if exists s :: 0 <= s < |ss| && p == HeaderPos(ss, s) {
      var s :| 0 <= s < |ss| && p == HeaderPos(ss, s);
      LayoutAt(ss, s, -1);
    }
  }

  /** getItem yields a section's name at its header position and item k's text k + 1
      rows further down, where the view type is ITEM_TYPE. */
  lemma {:induction false} ItemAt(a: Adapter, s: nat, k: int)
    requires s < |a.sections| && -1 <= k < |a.sections[s].items|
    ensures k == -1 ==> GetItem(a, HeaderPos(a.sections, s)) == Ok(a.sections[s].name)
    ensures k == -1 ==> GetItemViewType(a, HeaderPos(a.sections, s)) == Ok(HeaderType)
    ensures k >= 0 ==> GetItem(a, HeaderPos(a.sections, s) + 1 + k) == Ok(a.sections[s].items[k])
    ensures k >= 0 ==> GetItemViewType(a, HeaderPos(a.sections, s) + 1 + k) == Ok(ItemType)
  {
    LayoutAt(a.sections, s, k);
  }

  /** Adds `o` to every index. */
  function Shift(sel: seq<int>, o: int): (r: seq<int>)
    ensures |r| == |sel| && forall i :: 0 <= i < |sel| ==> r[i] == sel[i] + o
  {
    seq(|sel|, i requires 0 <= i < |sel| => sel[i] + o)
  }

  /** `addSection`: append the section and record its selected local indices as flat
      positions, counting from the row after its header. */
  function AddSection(a: Adapter, header: string, items: seq<string>, selectedInSection: seq<int>): (r: Adapter)
    ensures ItemCount(r) == ItemCount(a) + 1 + |items|
    ensures |r.selected| == |a.selected| + |selectedInSection| && r.selected[..|a.selected|] == a.selected
  {
    var offset := ItemCount(a) + 1;
    var ss := a.sections + [Section(header, items)];
    assert ItemCounts(ss)[..|a.sections|] == ItemCounts(a.sections);
    Adapter(ss, a.selected + Shift(selectedInSection, offset))
  }

  /** Local index k of a new section is recorded as the flat position where getItem shows
      item k, and index -1 as the new section's own header. */
  lemma {:induction false} AddSectionPositions(a: Adapter, header: string, items: seq<string>, sel: seq<int>)
    ensures var r := AddSection(a, header, items, sel);
      && (forall i :: 0 <= i < |sel| && 0 <= sel[i] < |items| ==>
            GetItem(r, r.selected[|a.selected| + i]) == Ok(items[sel[i]]))
      && (forall i :: 0 <= i < |sel| && sel[i] == -1 ==>
            GetItemViewType(r, r.selected[|a.selected| + i]) == Ok(HeaderType))
  {
    var r := AddSection(a, header, items, sel);
    var ss := r.sections;
    var n := |a.sections|;
    AddSectionHeader(a, header, items, sel);
    forall i | 0 <= i < |sel| && 0 <= sel[i] < |items|
      ensures GetItem(r, r.selected[|a.selected| + i]) == Ok(items[sel[i]])
    {
      ItemAt(r, n, sel[i]);
    }
    forall i | 0 <= i < |sel| && sel[i] == -1
      ensures GetItemViewType(r, r.selected[|a.selected| + i]) == Ok(HeaderType)
    {
      ItemAt(r, n, -1);
    }
  }

  /** The new section's header sits right after the rows already there. */
  lemma {:induction false} AddSectionHeader(a: Adapter, header: string, items: seq<string>, sel: seq<int>)
    ensures HeaderPos(AddSection(a, header, items, sel).sections, |a.sections|) == ItemCount(a)
  {
    var ss := AddSection(a, header, items, sel).sections;
    var n := |a.sections|;
    assert ss[..n] == a.sections;
    HeaderPosPrefix(ss, n, n);
    assert a.sections[..n] == a.sections;
  }

  //
  // Reading the selection back
  //

  /** The first n items' reports for one section whose first item sits at flat position
      `first`: for each selected position, the index of the first item with that text. */
  function Picks(items: seq<string>, first: int, selected: seq<int>, n: nat): seq<int>
    requires n <= |items|
  {
    if n == 0 then []
    else
      var report := if first + (n - 1) in selected then [IndexOf(items, items[n - 1])] else [];
      Picks(items, first, selected, n - 1) + report
  }

  /** What `getSelectedItems` reports for each section. */
  function Selections(a: Adapter): seq<seq<int>>
  {
    var ss := a.sections;
    seq(|ss|, s requires 0 <= s < |ss| => Picks(ss[s].items, HeaderPos(ss, s) + 1, a.selected, |ss[s].items|))
  }

  /** `getSelectedItems`: walk the flat positions section by section, reporting the
      local index of every selected item row. */
  method GetSelectedItems(a: Adapter) returns (r: seq<seq<int>>)
    ensures |r| == |a.sections|
    ensures forall s, k :: 0 <= s < |r| && k in r[s] ==> 0 <= k < |a.sections[s].items|
    ensures r == Selections(a)
  {
    var ss := a.sections;
    r := [];
    var position := 0;
    var s := 0;
    while s < |ss|
      invariant 0 <= s <= |ss|
      invariant position == HeaderPos(ss, s)
      invariant |r| == s
      invariant forall t :: 0 <= t < s ==> r[t] == Selections(a)[t]
    {
      var selections;
      selections, position := SectionSelections(ss[s].items, position + 1, a.selected);
      HeaderPosNext(ss, s);
      SelectionsAt(a, s);
      r := r + [selections];
      s := s + 1;
    }
    SelectionsInRange(a);
  }

  /** The inner loop of `getSelectedItems` over one section's item rows, the first at
      flat position `first`; it also returns the position after the section. */
  method SectionSelections(items: seq<string>, first: int, selected: seq<int>) returns (picks: seq<int>, next: int)
    ensures picks == Picks(items, first, selected, |items|)
    ensures next == first + |items|
  {
    picks := [];
    next := first;
    var k := 0;
    while k < |items|
      invariant 0 <= k <= |items|
      invariant next == first + k
      invariant picks == Picks(items, first, selected, k)
    {
      if next in selected {
        picks := picks + [IndexOf(items, items[k])];
      }
      next := next + 1;
      k := k + 1;
    }
  }

  /** Every reported index is a valid local index of its section. */
  lemma {:induction false} SelectionsInRange(a: Adapter)
    ensures forall s, k :: 0 <= s < |Selections(a)| && k in Selections(a)[s] ==> 0 <= k < |a.sections[s].items|
  {
    forall s, k | 0 <= s < |a.sections| && k in Selections(a)[s] ensures 0 <= k < |a.sections[s].items| {
      PicksInRange(a.sections[s].items, HeaderPos(a.sections, s) + 1, a.selected, |a.sections[s].items|);
    }
  }

  lemma {:induction false} PicksInRange(items: seq<string>, first: int, selected: seq<int>, n: nat)
    requires n <= |items|
    ensures forall k :: k in Picks(items, first, selected, n) ==> 0 <= k < |items|
  {
    if n > 0 {
      PicksInRange(items, first, selected, n - 1);
    }
  }

  /** The indices below n that occur in `sel`, ascending, each once. */
  function Chosen(n: nat, sel: seq<int>): seq<int>
  {
    if n == 0 then [] else Chosen(n - 1, sel) + (if n - 1 in sel then [n - 1] else [])
  }

  lemma {:induction false} ChosenSpec(n: nat, sel: seq<int>)
    ensures forall k :: k in Chosen(n, sel) <==> 0 <= k < n && k in sel
    ensures forall i, j :: 0 <= i < j < |Chosen(n, sel)| ==> Chosen(n, sel)[i] < Chosen(n, sel)[j]
  {
    if n > 0 {
      ChosenSpec(n - 1, sel);
      var c := Chosen(n - 1, sel);
      assert forall i :: 0 <= i < |c| ==> c[i] in c;
    }
  }

  /** With distinct texts, the reports of a section are its selected local indices. */
  lemma {:induction false} PicksAreChosen(items: seq<string>, first: int, selected: seq<int>, sel: seq<int>, n: nat)
    requires n <= |items| && NoDups(items)
    requires forall j :: 0 <= j < |items| ==> (first + j in selected <==> j in sel)
    ensures Picks(items, first, selected, n) == Chosen(n, sel)
  {
    if n > 0 {
      PicksAreChosen(items, first, selected, sel, n - 1);
      assert IndexOf(items, items[n - 1]) == n - 1;
    }
  }

  /** With duplicate texts a section reports the first one's index: checking the second
      of two rows named "Lamp" reports index 0. */
  lemma {:induction false} DuplicateNamesReportFirst()
    ensures Selections(AddSection(Empty(), "Lights", ["Lamp", "Lamp"], [1])) == [[0]]
  {
    var items := ["Lamp", "Lamp"];
    var a := AddSection(Empty(), "Lights", items, [1]);
    assert ItemCount(Empty()) == 0;
    assert a.sections == [Section("Lights", items)];
    assert a.sections[..0] == [];
    assert HeaderPos(a.sections, 0) == 0;
    assert a.selected == [2];
    assert Picks(items, 1, [2], 0) == [];
    assert Picks(items, 1, [2], 1) == [];
    assert IndexOf(items, items[1]) == 0;
    assert Picks(items, 1, [2], 2) == [0];
  }

  /** The input of one `addSection` call. */
  datatype SectionInput = SectionInput(header: string, items: seq<string>, selected: seq<int>)

  function SectionsOf(ins: seq<SectionInput>): (r: seq<Section>)
    ensures |r| == |ins| && forall t :: 0 <= t < |ins| ==> r[t] == Section(ins[t].header, ins[t].items)
  {
    seq(|ins|, t requires 0 <= t < |ins| => Section(ins[t].header, ins[t].items))
  }

  /** A fresh adapter after one `addSection` call per input, in order. */
  function Build(ins: seq<SectionInput>): Adapter
  {
    if |ins| == 0 then Empty()
    else
      var n := |ins| - 1;
      AddSection(Build(ins[..n]), ins[n].header, ins[n].items, ins[n].selected)
  }

  /** The positions recorded for the inputs, each shifted past its section's header. */
  function ShiftedSelections(ins: seq<SectionInput>, ss: seq<Section>): seq<int>
    requires |ins| <= |ss|
  {
    if |ins| == 0 then []
    else
      var n := |ins| - 1;
      ShiftedSelections(ins[..n], ss) + Shift(ins[n].selected, HeaderPos(ss, n) + 1)
  }

  lemma {:induction false} BuildSections(ins: seq<SectionInput>)
    ensures Build(ins).sections == SectionsOf(ins)
  {
    if |ins| > 0 {
      var n := |ins| - 1;
      BuildSections(ins[..n]);
      assert SectionsOf(ins) == SectionsOf(ins[..n]) + [Section(ins[n].header, ins[n].items)];
    }
  }

  /** One `addSection` call past the previous ones. */
  lemma {:induction false} BuildLast(ins: seq<SectionInput>)
    requires |ins| > 0
    ensures Build(ins) == AddSection(Build(ins[..|ins| - 1]), ins[|ins| - 1].header, ins[|ins| - 1].items, ins[|ins| - 1].selected)
  {
  }

  lemma {:induction false} ShiftedLast(ins: seq<SectionInput>, ss: seq<Section>)
    requires 0 < |ins| <= |ss|
    ensures ShiftedSelections(ins, ss)
      == ShiftedSelections(ins[..|ins| - 1], ss) + Shift(ins[|ins| - 1].selected, HeaderPos(ss, |ins| - 1) + 1)
  {
  }

  /** `addSection` appends the new section's positions, offset past the rows so far. */
  lemma {:induction false} AddSectionSelected(a: Adapter, header: string, items: seq<string>, sel: seq<int>)
    ensures AddSection(a, header, items, sel).selected == a.selected + Shift(sel, ItemCount(a) + 1)
  {
  }

  /** An adapter holding the first n sections has as many rows as come before section n. */
  lemma {:induction false} ItemCountPrefix(a: Adapter, ss: seq<Section>, n: nat)
    requires n <= |ss| && a.sections == ss[..n]
    ensures ItemCount(a) == HeaderPos(ss, n)
  {
  }

  /** The positions `Build` records, measured against any section list that starts
      with the built sections. */
  lemma {:induction false} BuildSelected(ins: seq<SectionInput>, ss: seq<Section>)
    requires |ins| <= |ss| && SectionsOf(ins) == ss[..|ins|]
    ensures Build(ins).selected == ShiftedSelections(ins, ss)
  {
    if |ins| > 0 {
      var front := ins[..|ins| - 1];
      assert SectionsOf(front) == ss[..|front|];
      BuildSelected(front, ss);
      BuildSelectedStep(ins, ss);
      ShiftedLast(ins, ss);
    }
  }

  /** One more `addSection` appends the last input's positions, shifted past the rows
      of the sections before it. */
  lemma {:induction false} BuildSelectedStep(ins: seq<SectionInput>, ss: seq<Section>)
    requires 0 < |ins| <= |ss| && SectionsOf(ins) == ss[..|ins|]
    ensures Build(ins).selected
      == Build(ins[..|ins| - 1]).selected + Shift(ins[|ins| - 1].selected, HeaderPos(ss, |ins| - 1) + 1)
  {
    var n := |ins| - 1;
    var front := ins[..n];
    var prev := Build(front);
    assert SectionsOf(front) == ss[..n];
    BuildSections(front);
    ItemCountPrefix(prev, ss, n);
    BuildLast(ins);
    AddSectionSelected(prev, ins[n].header, ins[n].items, ins[n].selected);
  }

  lemma {:induction false} BuildShape(ins: seq<SectionInput>)
    ensures Build(ins).sections == SectionsOf(ins)
    ensures Build(ins).selected == ShiftedSelections(ins, SectionsOf(ins))
  {
    BuildSections(ins);
    BuildSelected(ins, SectionsOf(ins));
  }

  /** Position p was recorded for local index `ins[t].selected[i]` of section t. */
  ghost predicate RecordedFrom(ins: seq<SectionInput>, ss: seq<Section>, t: int, i: int, p: int)
    requires |ins| <= |ss|
  {
    0 <= t < |ins| && 0 <= i < |ins[t].selected| && p == ins[t].selected[i] + HeaderPos(ss, t) + 1
  }

  /** Every recorded position comes from some section's selected local index. */
  lemma {:induction false} ShiftedSound(ins: seq<SectionInput>, ss: seq<Section>, p: int)
    requires |ins| <= |ss| && p in ShiftedSelections(ins, ss)
    ensures exists t, i :: RecordedFrom(ins, ss, t, i, p)
  {
    var n := |ins| - 1;
    var front := ins[..n];
    var tail := Shift(ins[n].selected, HeaderPos(ss, n) + 1);
    ShiftedLast(ins, ss);
    if p in tail {
      var i :| 0 <= i < |tail| && tail[i] == p;
      assert RecordedFrom(ins, ss, n, i, p);
    } else {
      ShiftedSound(front, ss, p);
      var t, i :| RecordedFrom(front, ss, t, i, p);
      assert front[t] == ins[t];
      assert RecordedFrom(ins, ss, t, i, p);
    }
  }

  /** Every selected local index of every section is recorded. */
  lemma {:induction false} ShiftedComplete(ins: seq<SectionInput>, ss: seq<Section>, t: int, i: int)
    requires |ins| <= |ss| && 0 <= t < |ins| && 0 <= i < |ins[t].selected|
    ensures ins[t].selected[i] + HeaderPos(ss, t) + 1 in ShiftedSelections(ins, ss)
  {
    var n := |ins| - 1;
    var front := ins[..n];
    ShiftedLast(ins, ss);
    if t == n {
      var tail := Shift(ins[n].selected, HeaderPos(ss, n) + 1);
      assert tail[i] == ins[t].selected[i] + HeaderPos(ss, t) + 1;
    } else {
      assert front[t] == ins[t];
      ShiftedComplete(front, ss, t, i);
    }
  }

  /** Selected local indices stay within their own section: -1 up to the item count. */
  ghost predicate IndicesInRange(ins: seq<SectionInput>)
  {
    forall t, i :: 0 <= t < |ins| && 0 <= i < |ins[t].selected| ==> -1 <= ins[t].selected[i] < |ins[t].items|
  }

  /** Every section's item texts are distinct. */
  ghost predicate DistinctItems(ins: seq<SectionInput>)
  {
    forall t :: 0 <= t < |ins| ==> NoDups(ins[t].items)
  }

  /** Positions of different sections never coincide: a header or item row of section
      u and an item row of section t are the same position only when u == t. */
  lemma {:induction false} SameRow(ss: seq<Section>, u: nat, x: int, t: nat, y: int)
    requires u < |ss| && t < |ss|
    requires -1 <= x < |ss[u].items| && 0 <= y < |ss[t].items|
    requires HeaderPos(ss, u) + 1 + x == HeaderPos(ss, t) + 1 + y
    ensures u == t && x == y
  {
    HeaderPosOrder(ss, u, t);
    HeaderPosOrder(ss, t, u);
  }

  lemma {:induction false} HeaderPosOrder(ss: seq<Section>, s: nat, t: nat)
    requires s <= |ss| && t <= |ss|
    ensures s < t ==> HeaderPos(ss, s) + 1 + |ss[s].items| <= HeaderPos(ss, t)
  {
    if s < t {
      HeaderPosMonotone(ss, s, t);
    }
  }

  /** Item j of section t is recorded exactly when j was among the section's selected
      indices. */
  lemma {:induction false} SelectedAt(ins: seq<SectionInput>, t: nat, j: int)
    requires IndicesInRange(ins)
    requires t < |ins| && 0 <= j < |ins[t].items|
    ensures HeaderPos(Recorded(ins).sections, t) + 1 + j in Recorded(ins).selected <==> j in ins[t].selected
  {
    SelectedAtIn(ins, SectionsOf(ins), t, j);
  }

  lemma {:induction false} SelectedAtIn(ins: seq<SectionInput>, ss: seq<Section>, t: nat, j: int)
    requires |ins| <= |ss| && IndicesInRange(ins)
    requires forall u :: 0 <= u < |ins| ==> |ss[u].items| == |ins[u].items|
    requires t < |ins| && 0 <= j < |ins[t].items|
    ensures HeaderPos(ss, t) + 1 + j in ShiftedSelections(ins, ss) <==> j in ins[t].selected
  {
    SelectedAtSound(ins, ss, t, j);
    SelectedAtComplete(ins, ss, t, j);
  }

  lemma {:induction false} SelectedAtSound(ins: seq<SectionInput>, ss: seq<Section>, t: nat, j: int)
    requires |ins| <= |ss| && IndicesInRange(ins)
    requires forall u :: 0 <= u < |ins| ==> |ss[u].items| == |ins[u].items|
    requires t < |ins| && 0 <= j < |ins[t].items|
    ensures HeaderPos(ss, t) + 1 + j in ShiftedSelections(ins, ss) ==> j in ins[t].selected
  {
    var p := HeaderPos(ss, t) + 1 + j;
    if p in ShiftedSelections(ins, ss) {
      ShiftedSound(ins, ss, p);
      var u, i :| RecordedFrom(ins, ss, u, i, p);
      assert -1 <= ins[u].selected[i] < |ins[u].items|;
      RecordedIsSelected(ins, ss, t, j, u, i);
      assert ins[t].selected[i] == j;
    }
  }

  lemma {:induction false} SelectedAtComplete(ins: seq<SectionInput>, ss: seq<Section>, t: nat, j: int)
    requires |ins| <= |ss| && t < |ins|
    ensures j in ins[t].selected ==> HeaderPos(ss, t) + 1 + j in ShiftedSelections(ins, ss)
  {
    if j in ins[t].selected {
      var i :| 0 <= i < |ins[t].selected| && ins[t].selected[i] == j;
      ShiftedComplete(ins, ss, t, i);
    }
  }

  lemma {:induction false} RecordedIsSelected(ins: seq<SectionInput>, ss: seq<Section>, t: nat, j: int, u: int, i: int)
    requires |ins| <= |ss| && t < |ss| && 0 <= j < |ss[t].items|
    requires RecordedFrom(ins, ss, u, i, HeaderPos(ss, t) + 1 + j)
    requires -1 <= ins[u].selected[i] < |ss[u].items|
    ensures u == t && ins[t].selected[i] == j
  {
    SameRow(ss, u, ins[u].selected[i], t, j);
  }

  /** Round trip: when every selected index lies in -1 up to its section's item count and
      item texts are distinct within a section, getSelectedItems after the addSection
      calls returns, for each section in order, its selected item indices in ascending
      order, each once; -1 (the header row) is never reported. */
  lemma {:induction false} SelectionRoundTrip(ins: seq<SectionInput>)
    requires IndicesInRange(ins) && DistinctItems(ins)
    ensures |Selections(Build(ins))| == |ins|
    ensures forall t :: 0 <= t < |ins| ==> Selections(Build(ins))[t] == Chosen(|ins[t].items|, ins[t].selected)
  {
    BuildShape(ins);
    var a := Build(ins);
    assert a == Recorded(ins);
    forall t | 0 <= t < |ins| ensures Selections(a)[t] == Chosen(|ins[t].items|, ins[t].selected) {
      SectionRoundTrip(ins, t);
    }
  }

  /** The adapter `Build` produces, described directly: the sections, and every selected
      local index shifted past its own header. */
  function Recorded(ins: seq<SectionInput>): Adapter
  {
    Adapter(SectionsOf(ins), ShiftedSelections(ins, SectionsOf(ins)))
  }

  lemma {:induction false} SectionRoundTrip(ins: seq<SectionInput>, t: nat)
    requires IndicesInRange(ins) && DistinctItems(ins) && t < |ins|
    ensures |Selections(Recorded(ins))| == |ins|
    ensures Selections(Recorded(ins))[t] == Chosen(|ins[t].items|, ins[t].selected)
  {
    var a := Recorded(ins);
    var items := ins[t].items;
    assert |a.sections| == |ins| && a.sections[t].items == items;
    assert NoDups(items);
    forall j | 0 <= j < |items|
      ensures HeaderPos(a.sections, t) + 1 + j in a.selected <==> j in ins[t].selected
    {
      SelectedAt(ins, t, j);
    }
    SectionChosen(a, t, ins[t].selected);
    assert Selections(a)[t] == Chosen(|items|, ins[t].selected);
  }

  /** A section with distinct texts whose item rows are checked exactly for the indices in
      `sel` reports the in-range indices of `sel`, ascending. */
  lemma {:induction false} SectionChosen(a: Adapter, t: nat, sel: seq<int>)
    requires t < |a.sections| && NoDups(a.sections[t].items)
    requires forall j :: 0 <= j < |a.sections[t].items| ==>
      (HeaderPos(a.sections, t) + 1 + j in a.selected <==> j in sel)
    ensures |Selections(a)| == |a.sections|
    ensures Selections(a)[t] == Chosen(|a.sections[t].items|, sel)
  {
    var items := a.sections[t].items;
    PicksAreChosen(items, HeaderPos(a.sections, t) + 1, a.selected, sel, |items|);
    SelectionsAt(a, t);
  }

  lemma {:induction false} SelectionsAt(a: Adapter, t: nat)
    requires t < |a.sections|
    ensures |Selections(a)| == |a.sections|
    ensures Selections(a)[t] == Picks(a.sections[t].items, HeaderPos(a.sections, t) + 1, a.selected, |a.sections[t].items|)
  {
  }

  //
  // Checking and unchecking rows
  //

  /** `selectItem`: record the position unless it is already recorded. */
  function SelectItem(a: Adapter, position: int): (r: Adapter)
    ensures r.sections == a.sections
    ensures Elems(r.selected) == Elems(a.selected) + {position}
    ensures NoDups(a.selected) ==> NoDups(r.selected)
  {
    if position in a.selected then a else a.(selected := a.selected + [position])
  }

  /** `deselectItem`: drop the first record of the position, if any. */
  function DeselectItem(a: Adapter, position: int): (r: Adapter)
    ensures r.sections == a.sections
    ensures multiset(r.selected) == multiset(a.selected) - multiset{position}
    ensures NoDups(a.selected) ==> position !in r.selected
    ensures forall q :: q != position ==> (q in r.selected <==> q in a.selected)
  {
    if position in a.selected then
      var s := RemoveFirst(a.selected, position);
      assert forall q :: q != position ==> (q in s <==> q in multiset(s));
      NoDupsCount(a.selected, position);
      a.(selected := s)
    else a
  }

  /** Selecting twice is selecting once, and deselecting a freshly selected position
      restores the adapter. */
  lemma {:induction false} SelectDeselect(a: Adapter, position: int)
    ensures SelectItem(SelectItem(a, position), position) == SelectItem(a, position)
    ensures position !in a.selected ==> DeselectItem(SelectItem(a, position), position) == a
  {
    if position !in a.selected {
      var s := a.selected + [position];
      assert s[0..|s| - 1] == a.selected;
      RemoveFirstAppended(a.selected, position);
    }
  }

  //
  // The dialog
  //

  /** What the OK button produces. */
  datatype Outcome<L, G> = NoCallback | Delivered(lights: seq<L>, groups: seq<G>) | Thrown(fault: Fault)

  /** `xs.get(i)` for each index in order; the first bad index throws. */
  function Pick<X>(xs: seq<X>, indices: seq<int>): (r: Result<seq<X>>)
    ensures r.Ok? <==> forall i :: 0 <= i < |indices| ==> 0 <= indices[i] < |xs|
    ensures r.Ok? ==> |r.value| == |indices| && forall i :: 0 <= i < |indices| ==> r.value[i] == xs[indices[i]]
  {
    if |indices| == 0 then Ok([])
    else if !(0 <= indices[0] < |xs|) then Failure(IndexOutOfBounds)
    else
      match Pick(xs, indices[1..])
      case Failure(e) => Failure(e)
      case Ok(rest) => Ok([xs[indices[0]]] + rest)
  }

  /** The dialog's adapter: the groups section first, then the lights section. */
  function DialogAdapter(groupsHeader: string, groupNames: seq<string>, selectedGroups: seq<int>,
                         lightsHeader: string, lightNames: seq<string>, selectedLights: seq<int>): Adapter
  {
    AddSection(AddSection(Empty(), groupsHeader, groupNames, selectedGroups), lightsHeader, lightNames, selectedLights)
  }

  /** The OK handler: section 0 indexes the groups and section 1 the lights. */
  function OnOk<L, G>(a: Adapter, groups: seq<G>, lights: seq<L>, hasCallback: bool): Outcome<L, G>
  {
    if !hasCallback then NoCallback
    else
      var sel := Selections(a);
      if |sel| < 2 then Thrown(IndexOutOfBounds)
      else
        match Pick(groups, sel[0])
        case Failure(e) => Thrown(e)
        case Ok(gs) =>
          match Pick(lights, sel[1])
          case Failure(e) => Thrown(e)
          case Ok(ls) => Delivered(ls, gs)
  }

  /** The values at the given indices. */
  function At<X>(xs: seq<X>, indices: seq<int>): (r: seq<X>)
    requires forall k :: 0 <= k < |indices| ==> 0 <= indices[k] < |xs|
    ensures |r| == |indices| && forall k :: 0 <= k < |indices| ==> r[k] == xs[indices[k]]
  {
    seq(|indices|, k requires 0 <= k < |indices| => xs[indices[k]])
  }

  /** With the two sections present and their reports in range, OK delivers the lights
      named by section 1 and the groups named by section 0. */
  lemma {:induction false} OnOkDelivers<L, G>(a: Adapter, groups: seq<G>, lights: seq<L>)
    requires |Selections(a)| >= 2
    requires forall k :: 0 <= k < |Selections(a)[0]| ==> 0 <= Selections(a)[0][k] < |groups|
    requires forall k :: 0 <= k < |Selections(a)[1]| ==> 0 <= Selections(a)[1][k] < |lights|
    ensures OnOk(a, groups, lights, true) == Delivered(At(lights, Selections(a)[1]), At(groups, Selections(a)[0]))
  {
  }

  /** The dialog's adapter reports the preselected groups in section 0 and the
      preselected lights in section 1. */
  lemma {:induction false} DialogSelections(groupsHeader: string, groupNames: seq<string>, selectedGroups: seq<int>,
                                            lightsHeader: string, lightNames: seq<string>, selectedLights: seq<int>)
    requires NoDups(groupNames) && NoDups(lightNames)
    requires forall i :: 0 <= i < |selectedGroups| ==> -1 <= selectedGroups[i] < |groupNames|
    requires forall i :: 0 <= i < |selectedLights| ==> -1 <= selectedLights[i] < |lightNames|
    ensures Selections(DialogAdapter(groupsHeader, groupNames, selectedGroups, lightsHeader, lightNames, selectedLights))
      == [Chosen(|groupNames|, selectedGroups), Chosen(|lightNames|, selectedLights)]
  {
    var ins := [SectionInput(groupsHeader, groupNames, selectedGroups), SectionInput(lightsHeader, lightNames, selectedLights)];
    var one := ins[..1];
    assert one[..0] == [];
    assert Build(one) == AddSection(Empty(), groupsHeader, groupNames, selectedGroups);
    assert Build(ins) == AddSection(Build(one), lightsHeader, lightNames, selectedLights);
    SelectionRoundTrip(ins);
  }

  /** Opening the dialog and pressing OK hands back the preselected groups and lights
      (those with an index in range), in list order, each once, provided names are
      distinct within each list and every preselected index is in range or -1. */
  lemma {:induction false} DialogRoundTrip<L, G>(groupsHeader: string, groups: seq<G>, groupNames: seq<string>, selectedGroups: seq<int>,
                              lightsHeader: string, lights: seq<L>, lightNames: seq<string>, selectedLights: seq<int>)
    requires |groupNames| == |groups| && |lightNames| == |lights|
    requires NoDups(groupNames) && NoDups(lightNames)
    requires forall i :: 0 <= i < |selectedGroups| ==> -1 <= selectedGroups[i] < |groups|
    requires forall i :: 0 <= i < |selectedLights| ==> -1 <= selectedLights[i] < |lights|
    ensures var cg := Chosen(|groups|, selectedGroups);
      var cl := Chosen(|lights|, selectedLights);
      && (forall k :: 0 <= k < |cg| ==> 0 <= cg[k] < |groups| && cg[k] in selectedGroups)
      && (forall k :: 0 <= k < |cl| ==> 0 <= cl[k] < |lights| && cl[k] in selectedLights)
      && OnOk(DialogAdapter(groupsHeader, groupNames, selectedGroups, lightsHeader, lightNames, selectedLights), groups, lights, true)
         == Delivered(At(lights, cl), At(groups, cg))
  {
    var a := DialogAdapter(groupsHeader, groupNames, selectedGroups, lightsHeader, lightNames, selectedLights);
    DialogSelections(groupsHeader, groupNames, selectedGroups, lightsHeader, lightNames, selectedLights);
    ChosenSpec(|groups|, selectedGroups);
    ChosenSpec(|lights|, selectedLights);
    var cg := Chosen(|groups|, selectedGroups);
    var cl := Chosen(|lights|, selectedLights);
    assert forall k :: 0 <= k < |cg| ==> cg[k] in cg;
    assert forall k :: 0 <= k < |cl| ==> cl[k] in cl;
    OnOkDelivers(a, groups, lights);
  }
}
