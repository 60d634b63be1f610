/** Cryptomatte coverage output on the CPU device: the per-pixel table of (id, weight)
    slots, the conversion of a pixel's id-to-weight coverage map into sorted, size-limited
    slot writes, and the feature string of the CPU device. */
module Cryptomatte {
  import opened Common

  /** One id slot of the pass buffer: two consecutive floats, id then weight. */
  datatype Slot = Slot(id: real, weight: real)

  /** A coverage entry as the flattening step stores it: weight first, id second. */
  datatype Entry = Entry(weight: real, id: real)

  /** Every slot reset to the empty id with zero weight. */
  function Cleared(n: nat, idNone: real): (r: seq<Slot>)
    ensures |r| == n && forall j :: 0 <= j < n ==> r[j] == Slot(idNone, 0.0)
  {
    seq(n, _ => Slot(idNone, 0.0))
  }

  /** The slot the insertion stops at: the first one that is empty (zero weight) or
      already holds `id`. */
  function FirstFit(buf: seq<Slot>, id: real): (r: Option<nat>)
    ensures r.Some? ==> r.value < |buf| && (buf[r.value].weight == 0.0 || buf[r.value].id == id)
    ensures r.Some? ==> forall j :: 0 <= j < r.value ==> buf[j].weight != 0.0 && buf[j].id != id
    ensures r.None? ==> forall j :: 0 <= j < |buf| ==> buf[j].weight != 0.0 && buf[j].id != id
    decreases |buf|
  {
    if buf == [] then None
    else if buf[0].weight == 0.0 || buf[0].id == id then Some(0)
    else match FirstFit(buf[1..], id)
      case None => None
      case Some(j) => Some(j + 1)
  }

  /** `kernel_write_id_slots` on the `|buf|` slots of one pixel: a zero weight changes
      nothing; otherwise the table is optionally reset, and the weight lands in the first
      empty or matching slot, or is dropped when there is none. */
  function WriteIdSlots(buf: seq<Slot>, id: real, weight: real, init: bool, idNone: real): (r: seq<Slot>)
    ensures |r| == |buf|
    ensures weight == 0.0 ==> r == buf
    ensures weight != 0.0 ==>
              var base := if init then Cleared(|buf|, idNone) else buf;
              (forall j :: 0 <= j < |buf| && FirstFit(base, id) != Some(j) ==> r[j] == base[j])
              && (FirstFit(base, id).Some? ==>
                    var i := FirstFit(base, id).value;
                    r[i].id == (if base[i].weight == 0.0 then id else base[i].id)
                    && r[i].weight == base[i].weight + weight)
  {
    if weight == 0.0 then buf
    else
      var base := if init then Cleared(|buf|, idNone) else buf;
      match FirstFit(base, id)
      case None => base
      case Some(i) =>
        base[i := if base[i].weight == 0.0 then Slot(id, weight) else Slot(base[i].id, base[i].weight + weight)]
  }

  /** The loops of `kernel_write_id_slots`, over a sequence of slots. */
  method WriteIdSlotsLoop(buf: seq<Slot>, id: real, weight: real, init: bool, idNone: real) returns (r: seq<Slot>)
    ensures r == WriteIdSlots(buf, id, weight, init, idNone)
  {
    r := buf;
    if weight == 0.0 {
      return;
    }
    if init {
      var k := 0;
      while k < |r|
        invariant 0 <= k <= |r| == |buf|
        invariant forall j :: 0 <= j < k ==> r[j] == Slot(idNone, 0.0)
      {
        r := r[k := Slot(idNone, 0.0)];
        k := k + 1;
      }
    }
    ghost var base := r;
    assert base == (if init then Cleared(|buf|, idNone) else buf);
    var slot := 0;
    while slot < |r|
      invariant 0 <= slot <= |r| == |base|
      invariant r == base
      invariant forall j :: 0 <= j < slot ==> base[j].weight != 0.0 && base[j].id != id
    {
      if r[slot].weight == 0.0 {
        r := r[slot := Slot(id, weight)];
        assert FirstFit(base, id) == Some(slot) by { FirstFitAt(base, id, slot); }
        return;
      } else if r[slot].id == id {
        r := r[slot := Slot(r[slot].id, r[slot].weight + weight)];
        assert FirstFit(base, id) == Some(slot) by { FirstFitAt(base, id, slot); }
        return;
      }
      slot := slot + 1;
    }
  }

  /** The first slot that is empty or holds `id` is the one `FirstFit` finds. */
  lemma {:induction false} FirstFitAt(buf: seq<Slot>, id: real, i: nat)
    requires i < |buf| && (buf[i].weight == 0.0 || buf[i].id == id)
    requires forall j :: 0 <= j < i ==> buf[j].weight != 0.0 && buf[j].id != id
    ensures FirstFit(buf, id) == Some(i)
    decreases i
  {
    if i > 0 {
      assert buf[0].weight != 0.0 && buf[0].id != id;
      FirstFitAt(buf[1..], id, i - 1);
    }
  }

  // ---------------------------------------------------------------------------
  // Slot tables that stay well packed
  // ---------------------------------------------------------------------------

  /** The shape every table keeps when only positive weights are written: the occupied
      slots form a prefix, carry positive weights and distinct ids, and every empty slot
      holds the empty id. */
  predicate Packed(buf: seq<Slot>, idNone: real) {
    (forall i, j :: 0 <= i < j < |buf| && buf[j].weight != 0.0 ==> buf[i].weight != 0.0 && buf[i].id != buf[j].id)
    && (forall i :: 0 <= i < |buf| ==> buf[i].weight >= 0.0)
    && (forall i :: 0 <= i < |buf| && buf[i].weight == 0.0 ==> buf[i].id == idNone)
  }

  lemma ClearedPacked(n: nat, idNone: real)
    ensures Packed(Cleared(n, idNone), idNone)
  {
  }

  /** Writing a positive weight keeps a table packed. So in a packed table the
      insertion always finds the empty id at the empty slot it fills, the condition the
      source asserts there. */
  lemma WriteIdSlotsKeepsPacked(buf: seq<Slot>, id: real, weight: real, init: bool, idNone: real)
    requires Packed(buf, idNone) && weight >= 0.0
    ensures Packed(WriteIdSlots(buf, id, weight, init, idNone), idNone)
    ensures var base := if init then Cleared(|buf|, idNone) else buf;
            weight != 0.0 && FirstFit(base, id).Some? && base[FirstFit(base, id).value].weight == 0.0 ==>
              base[FirstFit(base, id).value].id == idNone
  {
    if weight != 0.0 {
      var base := if init then Cleared(|buf|, idNone) else buf;
      ClearedPacked(|buf|, idNone);
      var r := WriteIdSlots(buf, id, weight, init, idNone);
      match FirstFit(base, id)
      case None =>
      case Some(k) =>
        forall i, j | 0 <= i < j < |r| && r[j].weight != 0.0
          ensures r[i].weight != 0.0 && r[i].id != r[j].id
        {
          if j == k {
            assert base[i].weight != 0.0 && base[i].id != id;
            if base[k].weight != 0.0 {
              assert base[i].id != base[k].id;
            }
          } else if i == k {
            assert base[j].weight != 0.0;
            assert base[k].weight != 0.0 && base[k].id != base[j].id;
          }
        }
    }
  }

  /** Total weight of a slot table. */
  function SlotTotal(buf: seq<Slot>): real
    decreases |buf|
  {
    if buf == [] then 0.0 else buf[0].weight + SlotTotal(buf[1..])
  }

  lemma {:induction false} SlotTotalUpdate(buf: seq<Slot>, i: nat, s: Slot)
    requires i < |buf|
    ensures SlotTotal(buf[i := s]) == SlotTotal(buf) - buf[i].weight + s.weight
    decreases |buf|
  {
    if i > 0 {
      assert buf[i := s][1..] == buf[1..][i - 1 := s];
      SlotTotalUpdate(buf[1..], i - 1, s);
    }
  }

  lemma {:induction false} ClearedTotal(n: nat, idNone: real)
    ensures SlotTotal(Cleared(n, idNone)) == 0.0
    decreases n
  {
    if n > 0 {
      assert Cleared(n, idNone)[1..] == Cleared(n - 1, idNone);
      ClearedTotal(n - 1, idNone);
    }
  }

  /** The table's total grows by exactly the written weight, unless no slot was free
      or matching, in which case the weight is lost. */
  lemma WriteIdSlotsTotal(buf: seq<Slot>, id: real, weight: real, init: bool, idNone: real)
    requires weight != 0.0
    ensures var base := if init then Cleared(|buf|, idNone) else buf;
            SlotTotal(WriteIdSlots(buf, id, weight, init, idNone))
            == SlotTotal(base) + (if FirstFit(base, id).Some? then weight else 0.0)
  {
    var base := if init then Cleared(|buf|, idNone) else buf;
    match FirstFit(base, id)
    case None =>
    case Some(i) =>
      var s := if base[i].weight == 0.0 then Slot(id, weight) else Slot(base[i].id, base[i].weight + weight);
      SlotTotalUpdate(base, i, s);
  }

  // ---------------------------------------------------------------------------
  // Sorting a pixel's coverage
  // ---------------------------------------------------------------------------

  /** Heaviest first, the order of `crypomatte_comp`. */
  predicate SortedDesc(s: seq<Entry>) {
    forall i, j :: 0 <= i < j < |s| ==> s[i].weight >= s[j].weight
  }

  /** Puts `e` before the first entry lighter than it. */
  function InsertDesc(e: Entry, s: seq<Entry>): (r: seq<Entry>)
    ensures multiset(r) == multiset(s) + multiset{e} && |r| == |s| + 1
    ensures r[0] == e || (s != [] && r[0] == s[0])
    decreases |s|
  {
    if s == [] || e.weight >= s[0].weight then [e] + s
    else
      assert s == [s[0]] + s[1..];
      [s[0]] + InsertDesc(e, s[1..])
  }

  lemma {:induction false} InsertDescSorted(e: Entry, s: seq<Entry>)
    requires SortedDesc(s)
    ensures SortedDesc(InsertDesc(e, s))
    decreases |s|
  {
    if s != [] && e.weight < s[0].weight {
      var rest := InsertDesc(e, s[1..]);
      InsertDescSorted(e, s[1..]);
      assert rest[0].weight <= s[0].weight;
      ConsSorted(s[0], rest);
    }
  }

  /** A sorted list stays sorted behind an entry at least as heavy as its head. */
  lemma ConsSorted(x: Entry, s: seq<Entry>)
    requires SortedDesc(s) && (s != [] ==> x.weight >= s[0].weight)
    ensures SortedDesc([x] + s)
  {
    var r := [x] + s;
    forall i, j | 0 <= i < j < |r|
      ensures r[i].weight >= r[j].weight
    {
      if i == 0 {
        assert r[j] == s[j - 1];
        assert s[0].weight >= s[j - 1].weight || j - 1 == 0;
      } else {
        assert r[i] == s[i - 1] && r[j] == s[j - 1];
      }
    }
  }

  /** The sort of `flatten_coverage`, as an insertion sort. `std::sort` leaves the order
      of equal weights unspecified; this one puts the earlier entry first. */
  function SortDesc(s: seq<Entry>): (r: seq<Entry>)
    ensures SortedDesc(r) && multiset(r) == multiset(s) && |r| == |s|
    decreases |s|
  {
    if s == [] then []
    else
      assert s == [s[0]] + s[1..];
      InsertDescSorted(s[0], SortDesc(s[1..]));
      InsertDesc(s[0], SortDesc(s[1..]))
  }

  /** Every id appears once. */
  predicate DistinctIds(s: seq<Entry>) {
    forall i, j :: 0 <= i < j < |s| ==> s[i].id != s[j].id
  }

  predicate AllPositive(s: seq<Entry>) {
    forall i :: 0 <= i < |s| ==> s[i].weight > 0.0
  }

  /** Inserting an entry with a new id keeps the ids distinct. */
  lemma {:induction false} InsertDescDistinct(e: Entry, s: seq<Entry>)
    requires DistinctIds(s) && forall i :: 0 <= i < |s| ==> s[i].id != e.id
    ensures DistinctIds(InsertDesc(e, s))
    decreases |s|
  {
    if s != [] && e.weight < s[0].weight {
      var rest := InsertDesc(e, s[1..]);
      InsertDescDistinct(e, s[1..]);
      forall k | 0 <= k < |rest|
        ensures rest[k].id != s[0].id
      {
        assert rest[k] in multiset(rest);
        if rest[k] != e {
          assert rest[k] in multiset(s[1..]);
          var j :| 0 <= j < |s[1..]| && s[1..][j] == rest[k];
          assert s[j + 1] == rest[k];
        }
      }
      var r := [s[0]] + rest;
      forall a, b | 0 <= a < b < |r|
        ensures r[a].id != r[b].id
      {
        if a > 0 {
          assert r[a] == rest[a - 1] && r[b] == rest[b - 1];
        } else {
          assert r[b] == rest[b - 1];
        }
      }
    }
  }

  /** Sorting is a permutation, so distinct ids stay distinct and weights stay
      positive. */
  lemma SortKeepsEntries(s: seq<Entry>)
    requires DistinctIds(s) && AllPositive(s)
    ensures DistinctIds(SortDesc(s)) && AllPositive(SortDesc(s))
  {
    SortKeepsPositive(s);
    SortKeepsDistinct(s);
  }

  lemma SortKeepsPositive(s: seq<Entry>)
    requires AllPositive(s)
    ensures AllPositive(SortDesc(s))
  {
    var r := SortDesc(s);
    forall i | 0 <= i < |r|
      ensures r[i].weight > 0.0
    {
      assert r[i] in multiset(s);
    }
  }

  lemma {:induction false} SortKeepsDistinct(s: seq<Entry>)
    requires DistinctIds(s)
    ensures DistinctIds(SortDesc(s))
    decreases |s|
  {
    if s != [] {
      var r1 := SortDesc(s[1..]);
      SortKeepsDistinct(s[1..]);
      forall k | 0 <= k < |r1|
        ensures r1[k].id != s[0].id
      {
        assert r1[k] in multiset(s[1..]);
        var j :| 0 <= j < |s[1..]| && s[1..][j] == r1[k];
        assert s[j + 1] == r1[k];
      }
      InsertDescDistinct(s[0], r1);
    }
  }

  // ---------------------------------------------------------------------------
  // Folding the leftover weight and flattening a pixel
  // ---------------------------------------------------------------------------

  /** Total weight of a list of entries. */
  function Total(s: seq<Entry>): real
    decreases |s|
  {
    if s == [] then 0.0 else s[0].weight + Total(s[1..])
  }

  lemma {:induction false} TotalAppend(a: seq<Entry>, b: seq<Entry>)
    ensures Total(a + b) == Total(a) + Total(b)
    decreases |a|
  {
    if a != [] {
      assert (a + b)[1..] == a[1..] + b;
      TotalAppend(a[1..], b);
    } else {
      assert a + b == b;
    }
  }

  lemma {:induction false} TotalSnoc(a: seq<Entry>, e: Entry)
    ensures Total(a + [e]) == Total(a) + e.weight
  {
    TotalAppend(a, [e]);
    assert [e][1..] == [];
  }

  /** The leftover loop of `flatten_coverage`: the weights past the first `n` entries,
      added up in order. */
  method LeftoverLoop(s: seq<Entry>, n: nat) returns (leftover: real)
    requires n <= |s|
    ensures leftover == Total(s[n..])
  {
    leftover := 0.0;
    var i := n;
    while i < |s|
      invariant n <= i <= |s|
      invariant leftover == Total(s[n..i])
    {
      TotalSnoc(s[n..i], s[i]);
      assert s[n..i + 1] == s[n..i] + [s[i]];
      leftover := leftover + s[i].weight;
      i := i + 1;
    }
    assert s[n..|s|] == s[n..];
  }

  /** When there are more entries than slots, the weight of the surplus entries is added
      to the last entry that gets a slot. */
  function FoldLeftover(s: seq<Entry>, n: nat): (r: seq<Entry>)
    requires n >= 1
    ensures |r| == |s|
    ensures forall i :: 0 <= i < |s| ==> r[i].id == s[i].id
    ensures |s| <= n ==> r == s
    ensures |s| > n ==> forall i :: 0 <= i < |s| && i != n - 1 ==> r[i] == s[i]
  {
    if |s| > n then s[n - 1 := Entry(s[n - 1].weight + Total(s[n..]), s[n - 1].id)] else s
  }

  /** The entries that receive a slot carry the pixel's whole weight. */
  lemma FoldConservesTotal(s: seq<Entry>, n: nat)
    requires n >= 1
    ensures Total(FoldLeftover(s, n)[..Min(n, |s|)]) == Total(s)
  {
    if |s| > n {
      var r := FoldLeftover(s, n);
      assert r[..n] == s[..n - 1] + [r[n - 1]];
      TotalSnoc(s[..n - 1], r[n - 1]);
      TotalSplit(s, n);
    } else {
      assert s[..|s|] == s;
    }
  }

  lemma TotalSplit(s: seq<Entry>, n: nat)
    requires 1 <= n <= |s|
    ensures Total(s) == Total(s[..n - 1]) + s[n - 1].weight + Total(s[n..])
  {
    assert s == s[..n - 1] + [s[n - 1]] + s[n..];
    TotalAppend(s[..n - 1] + [s[n - 1]], s[n..]);
    TotalSnoc(s[..n - 1], s[n - 1]);
  }

  lemma FoldKeepsEntries(s: seq<Entry>, n: nat)
    requires n >= 1 && DistinctIds(s) && AllPositive(s)
    ensures DistinctIds(FoldLeftover(s, n)) && AllPositive(FoldLeftover(s, n))
  {
    if |s| > n {
      TotalPositive(s[n..]);
    }
  }

  lemma {:induction false} TotalPositive(s: seq<Entry>)
    requires AllPositive(s)
    ensures Total(s) >= 0.0
    decreases |s|
  {
    if s != [] {
      TotalPositive(s[1..]);
    }
  }

  /** The write loop of `flatten_coverage`: one `kernel_write_id_slots` call per entry,
      resetting the table on the first. */
  function WriteAll(buf: seq<Slot>, es: seq<Entry>, init: bool, idNone: real): (r: seq<Slot>)
    ensures |r| == |buf|
    decreases |es|
  {
    if es == [] then buf
    else WriteAll(WriteIdSlots(buf, es[0].id, es[0].weight, init, idNone), es[1..], false, idNone)
  }

  /** The table holding `es` in its first slots and nothing else. */
  function Layout(es: seq<Entry>, n: nat, idNone: real): (r: seq<Slot>)
    requires |es| <= n
    ensures |r| == n
  {
    seq(n, i requires 0 <= i < n => if i < |es| then Slot(es[i].id, es[i].weight) else Slot(idNone, 0.0))
  }

  /** One more entry with a new id goes into the first empty slot. */
  lemma LayoutStep(es: seq<Entry>, e: Entry, n: nat, idNone: real)
    requires |es| < n && e.weight > 0.0 && AllPositive(es)
    requires forall i :: 0 <= i < |es| ==> es[i].id != e.id
    ensures WriteIdSlots(Layout(es, n, idNone), e.id, e.weight, false, idNone) == Layout(es + [e], n, idNone)
  {
    var base := Layout(es, n, idNone);
    FirstFitAt(base, e.id, |es|);
  }

  lemma {:induction false} WriteAllLayout(es: seq<Entry>, k: nat, n: nat, idNone: real)
    requires k <= |es| <= n && DistinctIds(es) && AllPositive(es)
    ensures WriteAll(Layout(es[..k], n, idNone), es[k..], false, idNone) == Layout(es, n, idNone)
    decreases |es| - k
  {
    if k == |es| {
      assert es[..k] == es;
    } else {
      LayoutStep(es[..k], es[k], n, idNone);
      assert es[..k] + [es[k]] == es[..k + 1];
      assert es[k..][1..] == es[k + 1..];
      WriteAllLayout(es, k + 1, n, idNone);
    }
  }

  /** With distinct ids and positive weights, the writes of a pixel, the first one
      resetting the table, leave exactly the entries in order in the first slots. */
  lemma WriteAllFromInit(buf: seq<Slot>, es: seq<Entry>, idNone: real)
    requires 1 <= |es| <= |buf| && DistinctIds(es) && AllPositive(es)
    ensures WriteAll(buf, es, true, idNone) == Layout(es, |buf|, idNone)
  {
    var n := |buf|;
    FirstFitAt(Cleared(n, idNone), es[0].id, 0);
    assert WriteIdSlots(buf, es[0].id, es[0].weight, true, idNone) == Layout(es[..1], n, idNone);
    assert es[1..] == es[1..][..];
    WriteAllLayout(es, 1, n, idNone);
    assert es[1..] == es[1..];
  }

  /** The slots a pixel gets: `2 * (use_cryptomatte & 255)`. */
  function NumSlots(useCryptomatte: int): (n: nat)
    ensures n % 2 == 0 && n <= 510
  {
    2 * (useCryptomatte % 256)
  }

  /** The per-pixel body of `flatten_coverage`. An empty coverage map writes nothing. A
      non-empty map with no slots to write indexes entry -1, which is undefined (None). */
  function FlattenPixel(pixel: seq<Entry>, useCryptomatte: int, buf: seq<Slot>, idNone: real): (r: Option<seq<Slot>>)
    requires |buf| == NumSlots(useCryptomatte)
    ensures pixel == [] ==> r == Some(buf)
    ensures r.None? <==> pixel != [] && NumSlots(useCryptomatte) == 0
    ensures r.Some? ==> |r.value| == |buf|
  {
    if pixel == [] then Some(buf)
    else
      var n := NumSlots(useCryptomatte);
      if n == 0 then None
      else
        var folded := FoldLeftover(SortDesc(pixel), n);
        Some(WriteAll(buf, folded[..Min(n, |folded|)], true, idNone))
  }

  /** What a pixel's slots hold afterwards: the heaviest entries in descending order of
      their weight before folding, one per slot, the rest empty. */
  lemma FlattenPixelLayout(pixel: seq<Entry>, useCryptomatte: int, buf: seq<Slot>, idNone: real)
    requires |buf| == NumSlots(useCryptomatte) >= 1
    requires pixel != [] && DistinctIds(pixel) && AllPositive(pixel)
    ensures var n := NumSlots(useCryptomatte);
            var folded := FoldLeftover(SortDesc(pixel), n);
            FlattenPixel(pixel, useCryptomatte, buf, idNone)
              == Some(Layout(folded[..Min(n, |pixel|)], n, idNone))
  {
    var n := NumSlots(useCryptomatte);
    var sorted := SortDesc(pixel);
    SortKeepsEntries(pixel);
    FoldKeepsEntries(sorted, n);
    var folded := FoldLeftover(sorted, n);
    var es := folded[..Min(n, |folded|)];
    SliceKeepsEntries(folded, Min(n, |folded|));
    WriteAllFromInit(buf, es, idNone);
  }

  lemma SliceKeepsEntries(s: seq<Entry>, k: nat)
    requires k <= |s| && DistinctIds(s) && AllPositive(s)
    ensures DistinctIds(s[..k]) && AllPositive(s[..k])
  {
  }

  /** The flattened table stays packed and carries the pixel's entire weight: the
      surplus entries' weight is in the last slot, not lost. */
  lemma FlattenPixelConservesWeight(pixel: seq<Entry>, useCryptomatte: int, buf: seq<Slot>, idNone: real)
    requires |buf| == NumSlots(useCryptomatte) >= 1
    requires pixel != [] && DistinctIds(pixel) && AllPositive(pixel)
    ensures FlattenPixel(pixel, useCryptomatte, buf, idNone).Some?
    ensures var r := FlattenPixel(pixel, useCryptomatte, buf, idNone).value;
            Packed(r, idNone) && SlotTotal(r) == Total(pixel)
  {
    var n := NumSlots(useCryptomatte);
    var sorted := SortDesc(pixel);
    var folded := FoldLeftover(sorted, n);
    var es := folded[..Min(n, |folded|)];
    FlattenPixelLayout(pixel, useCryptomatte, buf, idNone);
    SortKeepsEntries(pixel);
    FoldKeepsEntries(sorted, n);
    SliceKeepsEntries(folded, Min(n, |folded|));
    LayoutPacked(es, n, idNone);
    FoldConservesTotal(sorted, n);
    LayoutTotal(es, n, idNone);
    TotalMultiset(sorted, pixel);
  }

  lemma LayoutPacked(es: seq<Entry>, n: nat, idNone: real)
    requires |es| <= n && DistinctIds(es) && AllPositive(es)
    ensures Packed(Layout(es, n, idNone), idNone)
  {
  }

  lemma {:induction false} LayoutTotal(es: seq<Entry>, n: nat, idNone: real)
    requires |es| <= n
    ensures SlotTotal(Layout(es, n, idNone)) == Total(es)
    decreases n
  {
    if n > 0 {
      var l := Layout(es, n, idNone);
      if es == [] {
        assert l == Cleared(n, idNone);
        ClearedTotal(n, idNone);
      } else {
        assert l[1..] == Layout(es[1..], n - 1, idNone);
        LayoutTotal(es[1..], n - 1, idNone);
      }
    }
  }

  /** The total weight depends only on the multiset of entries. */
  lemma {:induction false} TotalMultiset(a: seq<Entry>, b: seq<Entry>)
    requires multiset(a) == multiset(b)
    ensures Total(a) == Total(b)
    decreases |a|
  {
    if a != [] {
      var x := a[0];
      assert x in multiset(b);
      var k :| 0 <= k < |b| && b[k] == x;
      var b' := b[..k] + b[k + 1..];
      assert b == b[..k] + [x] + b[k + 1..];
      assert a == [x] + a[1..];
      assert multiset(a) == multiset{x} + multiset(a[1..]);
      assert multiset(b) == multiset(b[..k]) + multiset{x} + multiset(b[k + 1..]);
      assert multiset(b') == multiset(b[..k]) + multiset(b[k + 1..]);
      assert multiset(a[1..]) == multiset(a) - multiset{x};
      assert multiset(b') == multiset(b) - multiset{x};
      TotalMultiset(a[1..], b');
      TotalAppend(b[..k] + [x], b[k + 1..]);
      TotalSnoc(b[..k], x);
      TotalAppend(b[..k], b[k + 1..]);
    } else {
      assert |multiset(b)| == 0;
    }
  }

  /** `flatten_coverage` over a tile: every pixel's coverage is flattened into that
      pixel's slots, and the result is `use_cryptomatte & 255`. The pass offset and
      stride arithmetic that locate a pixel's slots is left out: each pixel comes with
      its own slot table. */
  function FlattenCoverage(coverage: seq<seq<Entry>>, buffers: seq<seq<Slot>>, useCryptomatte: int, idNone: real)
    : (r: Option<(seq<seq<Slot>>, int)>)
    requires |coverage| == |buffers|
    requires forall i :: 0 <= i < |buffers| ==> |buffers[i]| == NumSlots(useCryptomatte)
    ensures r.Some? ==> |r.value.0| == |buffers| && 0 <= r.value.1 < 256 && r.value.1 == useCryptomatte % 256
    decreases |coverage|
  {
    if coverage == [] then Some(([], useCryptomatte % 256))
    else
      match FlattenPixel(coverage[0], useCryptomatte, buffers[0], idNone)
      case None => None
      case Some(b) =>
        match FlattenCoverage(coverage[1..], buffers[1..], useCryptomatte, idNone)
        case None => None
        case Some((bs, ret)) => Some(([b] + bs, ret))
  }

  /** Every pixel of a tile gets what flattening that pixel alone gives. */
  lemma {:induction false} FlattenCoveragePixel(coverage: seq<seq<Entry>>, buffers: seq<seq<Slot>>,
                                                useCryptomatte: int, idNone: real, i: nat)
    requires |coverage| == |buffers|
    requires forall i :: 0 <= i < |buffers| ==> |buffers[i]| == NumSlots(useCryptomatte)
    requires FlattenCoverage(coverage, buffers, useCryptomatte, idNone).Some? && i < |coverage|
    ensures FlattenPixel(coverage[i], useCryptomatte, buffers[i], idNone)
            == Some(FlattenCoverage(coverage, buffers, useCryptomatte, idNone).value.0[i])
    decreases i
  {
    if i > 0 {
      FlattenCoveragePixel(coverage[1..], buffers[1..], useCryptomatte, idNone, i - 1);
      assert coverage[1..][i - 1] == coverage[i] && buffers[1..][i - 1] == buffers[i];
    }
  }

  /** A tile is undefined exactly when pixels get no slots and some pixel has coverage. */
  lemma {:induction false} FlattenCoverageUndefined(coverage: seq<seq<Entry>>, buffers: seq<seq<Slot>>,
                                                    useCryptomatte: int, idNone: real)
    requires |coverage| == |buffers|
    requires forall i :: 0 <= i < |buffers| ==> |buffers[i]| == NumSlots(useCryptomatte)
    ensures FlattenCoverage(coverage, buffers, useCryptomatte, idNone).None?
            <==> NumSlots(useCryptomatte) == 0 && exists i :: 0 <= i < |coverage| && coverage[i] != []
    decreases |coverage|
  {
    if coverage != [] {
      FlattenCoverageUndefined(coverage[1..], buffers[1..], useCryptomatte, idNone);
      if NumSlots(useCryptomatte) == 0 && coverage[0] == [] {
        if exists i :: 0 <= i < |coverage| && coverage[i] != [] {
          var i :| 0 <= i < |coverage| && coverage[i] != [];
          assert coverage[1..][i - 1] == coverage[i];
        }
      }
      if exists i :: 0 <= i < |coverage[1..]| && coverage[1..][i] != [] {
        var i :| 0 <= i < |coverage[1..]| && coverage[1..][i] != [];
        assert coverage[i + 1] != [];
      }
    }
  }

  // ---------------------------------------------------------------------------
  // CPU capabilities
  // ---------------------------------------------------------------------------

  /** The instruction-set extensions the CPU may support, in reporting order. */
  datatype CpuSupport = CpuSupport(sse2: bool, sse3: bool, sse41: bool, avx: bool, avx2: bool)

  /** The names of the supported extensions, in order. */
  function SupportedNames(c: CpuSupport): seq<string> {
    (if c.sse2 then ["SSE2"] else []) + (if c.sse3 then ["SSE3"] else [])
    + (if c.sse41 then ["SSE41"] else []) + (if c.avx then ["AVX"] else [])
    + (if c.avx2 then ["AVX2"] else [])
  }

  /** Names separated by single spaces. */
  function Join(names: seq<string>): string
    decreases |names|
  {
    if names == [] then "" else if |names| == 1 then names[0] else names[0] + " " + Join(names[1..])
  }

  /** Each name followed by a space, the way the capability string is first built. */
  function Spaced(names: seq<string>): string
    decreases |names|
  {
    if names == [] then "" else names[0] + " " + Spaced(names[1..])
  }

  /** One extension's part of the names list, and of the string as first built. */
  function Names(on: bool, name: string): seq<string> {
    if on then [name] else []
  }

  function Piece(on: bool, name: string): string {
    if on then name + " " else ""
  }

  /** The names of the first four extensions, which the source writes with a trailing
      space. */
  function FirstNames(c: CpuSupport): seq<string> {
    Names(c.sse2, "SSE2") + Names(c.sse3, "SSE3") + Names(c.sse41, "SSE41") + Names(c.avx, "AVX")
  }

  function Prefix(c: CpuSupport): string {
    Piece(c.sse2, "SSE2") + Piece(c.sse3, "SSE3") + Piece(c.sse41, "SSE41") + Piece(c.avx, "AVX")
  }

  /** `device_cpu_capabilities`. With no extension supported the string is empty and its
      last character is read at index -1, which is undefined (None). */
  function Capabilities(c: CpuSupport): (r: Option<string>)
    ensures r.None? <==> SupportedNames(c) == []
    ensures r.Some? ==> |r.value| > 0 && r.value[|r.value| - 1] != ' ' && r.value[0] != ' '
  {
    var s := Prefix(c) + (if c.avx2 then "AVX2" else "");
    if s == [] then
      assert !c.sse2 && !c.sse3 && !c.sse41 && !c.avx && !c.avx2;
      None
    else if s[|s| - 1] == ' ' then Some(s[..|s| - 1])
    else Some(s)
  }

  lemma {:induction false} SpacedIsJoinPlusSpace(names: seq<string>)
    requires names != []
    ensures Spaced(names) == Join(names) + " "
    decreases |names|
  {
    if |names| > 1 {
      SpacedIsJoinPlusSpace(names[1..]);
    } else {
      assert Spaced(names[1..]) == "";
    }
  }

  lemma {:induction false} JoinSnoc(names: seq<string>, x: string)
    requires names != []
    ensures Join(names + [x]) == Join(names) + " " + x
    decreases |names|
  {
    if |names| == 1 {
      assert (names + [x])[1..] == [x];
    } else {
      assert (names + [x])[1..] == names[1..] + [x];
      JoinSnoc(names[1..], x);
    }
  }

  lemma {:induction false} SpacedAppend(a: seq<string>, b: seq<string>)
    ensures Spaced(a + b) == Spaced(a) + Spaced(b)
    decreases |a|
  {
    if a != [] {
      assert (a + b)[1..] == a[1..] + b;
      SpacedAppend(a[1..], b);
    } else {
      assert a + b == b;
    }
  }

  lemma SpacedNames(on: bool, name: string)
    ensures Spaced(Names(on, name)) == Piece(on, name)
  {
    if on {
      assert [name][1..] == [];
    }
  }

  lemma SpacedFirst(c: CpuSupport)
    ensures Spaced(FirstNames(c)) == Prefix(c)
  {
    var a := Names(c.sse2, "SSE2");
    var b := Names(c.sse3, "SSE3");
    var d := Names(c.sse41, "SSE41");
    var e := Names(c.avx, "AVX");
    SpacedAppend(a + b + d, e);
    SpacedAppend(a + b, d);
    SpacedAppend(a, b);
    SpacedNames(c.sse2, "SSE2");
    SpacedNames(c.sse3, "SSE3");
    SpacedNames(c.sse41, "SSE41");
    SpacedNames(c.avx, "AVX");
  }

  /** The capability string is the supported names in order, separated by single
      spaces. */
  lemma CapabilitiesJoinsNames(c: CpuSupport)
    requires SupportedNames(c) != []
    ensures Capabilities(c) == Some(Join(SupportedNames(c)))
  {
    var first := FirstNames(c);
    var p := Prefix(c);
    SpacedFirst(c);
    assert SupportedNames(c) == first + Names(c.avx2, "AVX2");
    if c.avx2 {
      var s := p + "AVX2";
      if first == [] {
        assert p == "";
        assert s == "AVX2";
      } else {
        SpacedIsJoinPlusSpace(first);
        JoinSnoc(first, "AVX2");
        assert s == Join(first) + " " + "AVX2";
      }
      assert s[|s| - 1] == '2';
    } else {
      var s := p + (if c.avx2 then "AVX2" else "");
      assert s == p;
      assert SupportedNames(c) == first + [] == first;
      assert first != [];
      SpacedIsJoinPlusSpace(first);
      assert s == Join(first) + " ";
      assert s[|s| - 1] == ' ';
      assert s[..|s| - 1] == Join(first);
      assert Capabilities(c) == Some(s[..|s| - 1]);
    }
  }
}
