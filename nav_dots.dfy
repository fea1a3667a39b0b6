/** The nav-dot indicator of `initNavDots`: on each batch of section
    intersection reports, every intersecting section makes its own dot the
    only active one, so the last intersecting report of a batch decides. */
module NavDots {
  import Sections

  /** One report of the section observer: whether the section is inside
      the center band, and the id of the section's element ("" if none). */
  datatype Entry = Entry(isIntersecting: bool, targetId: string)

  datatype Option<T> = None | Some(value: T)

  /** What `getSectionIndex` gives for a report: a section without an id
      is the hero. An inherited Object.prototype name gives no number. */
  function EntryIndex(e: Entry): (v: Sections.JsValue)
    ensures v.Number? ==> v.n < |Sections.SectionIds|
    ensures e.targetId == "" ==> v == Sections.Number(0)
    ensures forall k :: 0 <= k < |Sections.SectionIds| && e.targetId == Sections.SectionIds[k] ==>
      v == Sections.Number(k)
    ensures e.targetId !in Sections.ObjectPrototypeNames ==>
      v == Sections.Number(Sections.SectionIndex(if e.targetId == "" then "hero" else e.targetId))
    ensures e.targetId in Sections.ObjectPrototypeNames ==> !v.Number?
  {
    var id := if e.targetId == "" then "hero" else e.targetId;
    Sections.SectionIndexAsWritten(id)
  }

  /** `n` dots, each active exactly when its position is strictly equal to
      `index`: exactly one when `index` is a dot's position, none when it
      is a number past the last dot or no number at all. */
  function Activation(n: nat, index: Sections.JsValue): (r: seq<bool>)
    ensures |r| == n
    ensures forall i :: 0 <= i < n ==> (r[i] <==> index == Sections.Number(i))
    ensures !index.Number? ==> forall i :: 0 <= i < n ==> !r[i]
  {
    seq(n, i => index.Number? && index.n == i)
  }

  /** The dots after one report. */
  function ApplyEntry(dots: seq<bool>, e: Entry): (r: seq<bool>)
    ensures |r| == |dots|
    ensures !e.isIntersecting ==> r == dots
  {
    if e.isIntersecting then Activation(|dots|, EntryIndex(e)) else dots
  }

  /** The dots after a batch of reports, processed in batch order. */
  function ApplyBatch(dots: seq<bool>, entries: seq<Entry>): (r: seq<bool>)
    ensures |r| == |dots|
  {
    if entries == [] then dots
    else ApplyEntry(ApplyBatch(dots, entries[..|entries| - 1]), entries[|entries| - 1])
  }

  /** The last intersecting report of a batch, if any. */
  function LastIntersecting(entries: seq<Entry>): Option<Entry>
  {
    if entries == [] then None
    else if entries[|entries| - 1].isIntersecting then Some(entries[|entries| - 1])
    else LastIntersecting(entries[..|entries| - 1])
  }

  /** LastIntersecting finds an intersecting report after which no report
      intersects, and finds none only when no report intersects. */
  lemma {:induction false} LastIntersectingSpec(entries: seq<Entry>)
    ensures LastIntersecting(entries).None? <==>
      forall i :: 0 <= i < |entries| ==> !entries[i].isIntersecting
    ensures LastIntersecting(entries).Some? ==>
      exists i :: 0 <= i < |entries| && entries[i] == LastIntersecting(entries).value &&
        entries[i].isIntersecting &&
        forall j :: i < j < |entries| ==> !entries[j].isIntersecting
  {
    if entries != [] {
      var init := entries[..|entries| - 1];
      LastIntersectingSpec(init);
      if !entries[|entries| - 1].isIntersecting && LastIntersecting(init).Some? {
        var i :| 0 <= i < |init| && init[i] == LastIntersecting(init).value &&
          init[i].isIntersecting && forall j :: i < j < |init| ==> !init[j].isIntersecting;
        assert entries[i] == init[i];
      }
    }
  }

  /** The last intersecting report of a batch wins: the dots end with
      exactly its dot active, and a batch without one changes nothing. */
  lemma {:induction false} LastEntryWins(dots: seq<bool>, entries: seq<Entry>)
    ensures ApplyBatch(dots, entries) ==
      match LastIntersecting(entries)
      case None => dots
      case Some(e) => Activation(|dots|, EntryIndex(e))
  {
    if entries != [] {
      LastEntryWins(dots, entries[..|entries| - 1]);
    }
  }

  /** With one dot per section, a batch whose last intersecting report
      names an ordinary id leaves exactly one dot active, the one that
      report points at. */
  lemma ExactlyOneActive(dots: seq<bool>, entries: seq<Entry>, i: nat)
    requires |dots| == |Sections.SectionIds|
    requires LastIntersecting(entries).Some?
    requires LastIntersecting(entries).value.targetId !in Sections.ObjectPrototypeNames
    requires i < |dots|
    ensures EntryIndex(LastIntersecting(entries).value).Number?
    ensures EntryIndex(LastIntersecting(entries).value).n < |dots|
    ensures ApplyBatch(dots, entries)[i] <==> i == EntryIndex(LastIntersecting(entries).value).n
  {
    LastEntryWins(dots, entries);
  }

  /** As written, a batch whose last intersecting report names an inherited
      Object.prototype member (such as "toString") leaves no dot active. */
  lemma InheritedIdClearsDots(dots: seq<bool>, entries: seq<Entry>, i: nat)
    requires LastIntersecting(entries).Some?
    requires LastIntersecting(entries).value.targetId in Sections.ObjectPrototypeNames
    requires i < |dots|
    ensures !ApplyBatch(dots, entries)[i]
  {
    LastEntryWins(dots, entries);
  }

  /** Reports of sections outside the center band never change the dots. */
  lemma NonIntersectingBatchUnchanged(dots: seq<bool>, entries: seq<Entry>)
    requires forall i :: 0 <= i < |entries| ==> !entries[i].isIntersecting
    ensures ApplyBatch(dots, entries) == dots
  {
    LastIntersectingSpec(entries);
    LastEntryWins(dots, entries);
  }

  /** Sets the `active` mark of every dot: on exactly when the dot's
      position is strictly equal to `index`. */
  method ActivateDot(navDots: array<bool>, index: Sections.JsValue)
    modifies navDots
    ensures navDots[..] == Activation(navDots.Length, index)
  {
    for i := 0 to navDots.Length
      invariant forall j :: 0 <= j < i ==> navDots[j] == (index == Sections.Number(j))
    {
      navDots[i] := index == Sections.Number(i);
    }
  }

  /** The section observer's callback over one batch of reports. */
  method ProcessBatch(navDots: array<bool>, entries: seq<Entry>)
    modifies navDots
    ensures navDots[..] == ApplyBatch(old(navDots[..]), entries)
  {
    for k := 0 to |entries|
      invariant navDots[..] == ApplyBatch(old(navDots[..]), entries[..k])
    {
      var entry := entries[k];
      if entry.isIntersecting {
        var index := EntryIndex(entry);
        ActivateDot(navDots, index);
      }
      assert entries[..k + 1][..k] == entries[..k];
    }
    assert entries[..|entries|] == entries;
  }
}
