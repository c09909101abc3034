/**
 * The palette report entries (makeEntries), identical in both quantiser
 * versions: one entry per palette colour with its count and `#RRGGBB` code,
 * ordered by decreasing count. The ordering is Go's `sort.Slice`, which is
 * not stable, so entries of equal count come out in an unspecified order;
 * the model promises what Go promises: the entries are ordered and are a
 * rearrangement of the unsorted list.
 */
module Ranking {
  import opened Colors
  import Sorting

  datatype Entry = Entry(color: RGB, count: int, hex: string)

  /** The entries in palette order, before sorting. */
  function Unsorted(palette: seq<RGB>, counts: seq<int>): (es: seq<Entry>)
    requires |palette| <= |counts|
    ensures |es| == |palette|
    ensures forall i :: 0 <= i < |palette| ==> es[i] == Entry(palette[i], counts[i], ToHex(palette[i]))
  {
    seq(|palette|, i requires 0 <= i < |palette| => Entry(palette[i], counts[i], ToHex(palette[i])))
  }

  /** The sort key that puts larger counts first. */
  function ByCountDesc(e: Entry): (key: int)
  {
    -e.count
  }

  /**
   * makeEntries: builds one entry per palette index (a count is read for
   * each, so there must be at least as many counts as colours), then sorts
   * them by decreasing count.
   */
  method MakeEntries(palette: seq<RGB>, counts: seq<int>) returns (entries: seq<Entry>)
    requires |palette| <= |counts|
    ensures multiset(entries) == multiset(Unsorted(palette, counts))
    ensures forall x, y :: 0 <= x < y < |entries| ==> entries[x].count >= entries[y].count
  {
    var built := BuildEntries(palette, counts);
    var a := new Entry[|built|](t requires 0 <= t < |built| => built[t]);
    assert a[..] == built;
    Sorting.SortByKey(a, ByCountDesc);
    entries := a[..];
    assert forall x, y :: 0 <= x < y < |entries| ==> ByCountDesc(entries[x]) <= ByCountDesc(entries[y]);
  }

  /** The building loop of makeEntries: the entries in palette order. */
  method BuildEntries(palette: seq<RGB>, counts: seq<int>) returns (built: seq<Entry>)
    requires |palette| <= |counts|
    ensures built == Unsorted(palette, counts)
  {
    built := [];
    var i := 0;
    while i < |palette|
      invariant 0 <= i <= |palette|
      invariant |built| == i
      invariant forall t :: 0 <= t < i ==> built[t] == Entry(palette[t], counts[t], ToHex(palette[t]))
    {
      built := built + [Entry(palette[i], counts[i], ToHex(palette[i]))];
      i := i + 1;
    }
  }

  /**
   * Every palette colour appears in the report with its own count, and
   * every report line is one of them.
   */
  lemma EntriesOfPalette(palette: seq<RGB>, counts: seq<int>, entries: seq<Entry>)
    requires |palette| <= |counts|
    requires multiset(entries) == multiset(Unsorted(palette, counts))
    ensures |entries| == |palette|
    ensures forall i :: 0 <= i < |palette| ==> Entry(palette[i], counts[i], ToHex(palette[i])) in entries
    ensures forall e :: e in entries ==> exists i :: 0 <= i < |palette| && e == Entry(palette[i], counts[i], ToHex(palette[i]))
  {
    var u := Unsorted(palette, counts);
    assert |entries| == |multiset(entries)| == |u|;
    forall i | 0 <= i < |palette|
      ensures Entry(palette[i], counts[i], ToHex(palette[i])) in entries
    {
      assert u[i] in multiset(u);
    }
    forall e | e in entries
      ensures exists i :: 0 <= i < |palette| && e == Entry(palette[i], counts[i], ToHex(palette[i]))
    {
      assert e in multiset(u);
      var i :| 0 <= i < |u| && u[i] == e;
    }
  }

  /** Every report line's hex code decodes back to its colour. */
  lemma EntryHexDecodes(palette: seq<RGB>, counts: seq<int>, entries: seq<Entry>)
    requires |palette| <= |counts|
    requires multiset(entries) == multiset(Unsorted(palette, counts))
    ensures forall e :: e in entries ==> |e.hex| == 7 && ParseHex(e.hex) == Some(e.color)
  {
    EntriesOfPalette(palette, counts, entries);
    forall e | e in entries
      ensures |e.hex| == 7 && ParseHex(e.hex) == Some(e.color)
    {
      HexRoundTrip(e.color);
    }
  }
}
