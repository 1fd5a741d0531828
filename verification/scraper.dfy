/** The session state of the screenshot-capture page: the search results
    shown as rows with checkboxes, the list of selected links that the
    checkboxes keep up to date, and the accumulated capture results. */
module Scraper {
  import opened Wrappers
  import opened Seqs

  /** One hit of the property search. */
  datatype SearchResult = SearchResult(title: string, link: string)

  /** One entry of `properties` in the session: `{"Title", "Link", "Select"}`. */
  datatype Listing = Listing(title: string, link: string, select: bool)

  /** One result of the capture pipeline. `error` is the value under the
      result's "error" key, if it has one; `aiResponse` is the extracted
      JSON object, its values kept as text. */
  datatype CaptureResult = CaptureResult(
    url: string,
    error: Option<string>,
    screenshot: seq<bv8>,
    aiResponse: map<string, string>)

  const ErrorKey: string := "error"

  const PropertiesKey: string := "properties"
  const SelectedLinksKey: string := "selected_links"

  /** How a reset or a save ended: every key was popped, a `pop` without
      default met a missing key and raised, or the insert failed first. */
  datatype ClearOutcome = Cleared | MissingKey(key: string) | InsertFailed

  /** A capture is kept when neither it nor its AI response holds an error. */
  predicate Usable(r: CaptureResult) {
    r.error.None? && ErrorKey !in r.aiResponse
  }

  /** The session rows built from the search hits. */
  function ToListings(results: seq<SearchResult>): (r: seq<Listing>)
    ensures |r| == |results|
    ensures forall i :: 0 <= i < |r| ==>
      r[i].title == results[i].title && r[i].link == results[i].link && !r[i].select
  {
    if results == [] then []
    else [Listing(results[0].title, results[0].link, false)] + ToListings(results[1..])
  }

  function Links(rows: seq<Listing>): (r: seq<string>)
    ensures |r| == |rows|
  {
    seq(|rows|, i requires 0 <= i < |rows| => rows[i].link)
  }

  // ---------------------------------------------------------------------
  // The selection loop as a function of its inputs

  /** The value a checkbox reports: what the user set, or, for a box with no
      state yet (`None`), its default `link in selected_links`. */
  function Checked(selected: seq<string>, link: string, box: Option<bool>): bool {
    match box
    case Some(b) => b
    case None => link in selected
  }

  /** One turn of the loop: append a ticked link that is missing, remove an
      unticked link that is present. */
  function Step(selected: seq<string>, link: string, box: Option<bool>): seq<string> {
    if Checked(selected, link, box) then
      if link !in selected then selected + [link] else selected
    else
      if link in selected then Remove(selected, link) else selected
  }

  /** One turn never introduces a duplicate. */
  lemma StepNoDup(selected: seq<string>, link: string, box: Option<bool>)
    requires NoDup(selected)
    ensures NoDup(Step(selected, link, box))
  {
    if Checked(selected, link, box) && link !in selected {
      AppendNoDup(selected, link);
    }
  }

  /** The selection after the loop has visited every displayed row. */
  function Synced(selected: seq<string>, links: seq<string>, boxes: seq<Option<bool>>): seq<string>
    requires |links| == |boxes|
    decreases |links|
  {
    if links == [] then selected
    else
      var n := |links| - 1;
      Step(Synced(selected, links[..n], boxes[..n]), links[n], boxes[n])
  }

  /** Independent account of membership after the loop: the last row of `x`
      whose box the user set decides; with no such row, `x` stays selected
      exactly when it was. */
  predicate LastTick(x: string, selected: seq<string>, links: seq<string>, boxes: seq<Option<bool>>)
    requires |links| == |boxes|
    decreases |links|
  {
    if links == [] then x in selected
    else
      var n := |links| - 1;
      if links[n] == x && boxes[n].Some? then boxes[n].value
      else LastTick(x, selected, links[..n], boxes[..n])
  }

  /** The loop never introduces a duplicate. */
  lemma {:induction false} SyncedNoDup(selected: seq<string>, links: seq<string>, boxes: seq<Option<bool>>)
    requires |links| == |boxes| && NoDup(selected)
    ensures NoDup(Synced(selected, links, boxes))
  {
    if links != [] {
      var n := |links| - 1;
      SyncedNoDup(selected, links[..n], boxes[..n]);
      StepNoDup(Synced(selected, links[..n], boxes[..n]), links[n], boxes[n]);
    }
  }

  /** After the loop, a link is selected exactly as `LastTick` says. */
  lemma {:induction false} SyncedMembership(selected: seq<string>, links: seq<string>, boxes: seq<Option<bool>>, x: string)
    requires |links| == |boxes| && NoDup(selected)
    ensures x in Synced(selected, links, boxes) <==> LastTick(x, selected, links, boxes)
  {
    if links != [] {
      var n := |links| - 1;
      SyncedMembership(selected, links[..n], boxes[..n], x);
      SyncedNoDup(selected, links[..n], boxes[..n]);
    }
  }

  /** A row whose box the user set, with no later row of the same link set
      by the user, decides whether its link ends up selected. */
  lemma {:induction false} TickedRowDecides(selected: seq<string>, links: seq<string>, boxes: seq<Option<bool>>, i: nat)
    requires |links| == |boxes| && i < |links| && boxes[i].Some?
    requires forall j :: i < j < |links| && links[j] == links[i] ==> boxes[j].None?
    ensures LastTick(links[i], selected, links, boxes) == boxes[i].value
  {
    var n := |links| - 1;
    if i < n {
      assert links[..n][i] == links[i] && boxes[..n][i] == boxes[i];
      TickedRowDecides(selected, links[..n], boxes[..n], i);
    }
  }

  /** A link no row sets explicitly keeps its membership: in particular
      nothing that is not displayed is removed. */
  lemma {:induction false} UnsetLinkKeepsMembership(selected: seq<string>, links: seq<string>, boxes: seq<Option<bool>>, x: string)
    requires |links| == |boxes|
    requires forall j :: 0 <= j < |links| && links[j] == x ==> boxes[j].None?
    ensures LastTick(x, selected, links, boxes) == (x in selected)
  {
    if links != [] {
      var n := |links| - 1;
      UnsetLinkKeepsMembership(selected, links[..n], boxes[..n], x);
    }
  }

  /** The result is a subsequence of the old selection followed by the
      displayed links, and every selected link was selected before or is
      displayed. (A link both selected and displayed occurs twice in that
      sequence, so the exact order is `SyncedKeepsOrder`.) */
  lemma {:induction false} SyncedOrder(selected: seq<string>, links: seq<string>, boxes: seq<Option<bool>>)
    requires |links| == |boxes|
    ensures IsSubseq(Synced(selected, links, boxes), selected + links)
    ensures forall x :: x in Synced(selected, links, boxes) ==> x in selected || x in links
  {
    if links == [] {
      SubseqRefl(selected);
      assert selected + links == selected;
    } else {
      var n := |links| - 1;
      SyncedOrder(selected, links[..n], boxes[..n]);
      var cur := Synced(selected, links[..n], boxes[..n]);
      var seen := selected + links[..n];
      assert selected + links == seen + [links[n]];
      if Checked(cur, links[n], boxes[n]) && links[n] !in cur {
        SubseqSnoc(cur, seen, links[n]);
      } else if !Checked(cur, links[n], boxes[n]) && links[n] in cur {
        SubseqRemove(cur, seen, links[n]);
        SubseqExtend(Remove(cur, links[n]), seen, links[n]);
      } else {
        SubseqExtend(cur, seen, links[n]);
      }
    }
    SubseqMembers(Synced(selected, links, boxes), selected + links);
  }

  /** No row of `x` was set unticked by the user. */
  predicate NeverUnticked(x: string, links: seq<string>, boxes: seq<Option<bool>>)
    requires |links| == |boxes|
  {
    forall j :: 0 <= j < |links| && links[j] == x ==> boxes[j] != Some(false)
  }

  /** The old selection's links that survive the loop, in their old order. */
  function Kept(selected: seq<string>, links: seq<string>, boxes: seq<Option<bool>>): seq<string>
    requires |links| == |boxes|
  {
    Filter(selected, x => NeverUnticked(x, links, boxes))
  }

  /** `r` is `front` followed by a subsequence of `shown`. */
  predicate SplitAt(r: seq<string>, front: seq<string>, shown: seq<string>) {
    |front| <= |r| && r[..|front|] == front && IsSubseq(r[|front|..], shown)
  }

  /** Order: the result starts with the old selection minus the links the
      user unticked, in their old order, and continues with newly ticked
      links in display order. */
  lemma {:induction false} SyncedKeepsOrder(selected: seq<string>, links: seq<string>, boxes: seq<Option<bool>>)
    requires |links| == |boxes| && NoDup(selected)
    ensures SplitAt(Synced(selected, links, boxes), Kept(selected, links, boxes), links)
  {
    if links == [] {
      FilterAll(selected, x => NeverUnticked(x, links, boxes));
      assert selected[|selected|..] == [];
    } else {
      var n := |links| - 1;
      var lp, bp := links[..n], boxes[..n];
      SyncedKeepsOrder(selected, lp, bp);
      SyncedNoDup(selected, lp, bp);
      var r0 := Synced(selected, lp, bp);
      var k0 := Kept(selected, lp, bp);
      assert NoDup(k0) by {
        assert forall i :: 0 <= i < |k0| ==> k0[i] == r0[i];
      }
      assert links == lp + [links[n]];
      if boxes[n] == Some(false) {
        var other := y => y != links[n];
        UntickedStep(selected, links, boxes, other);
        UntickSplit(r0, k0, lp, links[n], other);
      } else {
        OtherStep(selected, links, boxes);
        TickSplit(r0, k0, lp, links[n], boxes[n]);
      }
    }
  }

  /** Unticking `l` on a selection that starts with `kept` leaves `kept`
      without `l` in front, followed by a rest that is still a subsequence. */
  lemma UntickSplit(r: seq<string>, kept: seq<string>, shown: seq<string>, l: string, other: string -> bool)
    requires NoDup(kept) && SplitAt(r, kept, shown)
    requires forall y :: other(y) == (y != l)
    ensures SplitAt(Step(r, l, Some(false)), Filter(kept, other), shown + [l])
  {
    var rest := r[|kept|..];
    assert r == kept + rest;
    if l in kept {
      RemoveAppendLeft(kept, rest, l);
      RemoveIsFilter(kept, l, other);
      SubseqExtend(rest, shown, l);
    } else {
      FilterAll(kept, other);
      if l in rest {
        RemoveAppendRight(kept, rest, l);
        SubseqRemove(rest, shown, l);
        SubseqExtend(Remove(rest, l), shown, l);
      } else {
        SubseqExtend(rest, shown, l);
      }
    }
  }

  /** A turn that does not untick keeps `kept` in front and grows the rest
      at most by its link. */
  lemma TickSplit(r: seq<string>, kept: seq<string>, shown: seq<string>, l: string, box: Option<bool>)
    requires SplitAt(r, kept, shown) && box != Some(false)
    ensures SplitAt(Step(r, l, box), kept, shown + [l])
  {
    var rest := r[|kept|..];
    assert r == kept + rest;
    if Checked(r, l, box) && l !in r {
      assert r + [l] == kept + (rest + [l]);
      SubseqSnoc(rest, shown, l);
    } else {
      SubseqExtend(rest, shown, l);
    }
  }

  /** A last row set unticked drops its link from what is kept. */
  lemma UntickedStep(selected: seq<string>, links: seq<string>, boxes: seq<Option<bool>>, other: string -> bool)
    requires |links| == |boxes| && links != [] && boxes[|links| - 1] == Some(false)
    requires forall y :: other(y) == (y != links[|links| - 1])
    ensures Kept(selected, links, boxes) ==
      Filter(Kept(selected, links[..|links| - 1], boxes[..|links| - 1]), other)
  {
    var n := |links| - 1;
    forall x ensures NeverUnticked(x, links, boxes) ==
      (NeverUnticked(x, links[..n], boxes[..n]) && x != links[n]) {
      if NeverUnticked(x, links[..n], boxes[..n]) && x != links[n] {
        forall j | 0 <= j < |links| && links[j] == x ensures boxes[j] != Some(false) {
          assert j < n && links[..n][j] == x;
        }
      }
    }
    FilterFilter(selected, x => NeverUnticked(x, links[..n], boxes[..n]), other,
      x => NeverUnticked(x, links, boxes));
  }

  /** A last row not set unticked leaves what is kept as it was. */
  lemma OtherStep(selected: seq<string>, links: seq<string>, boxes: seq<Option<bool>>)
    requires |links| == |boxes| && links != [] && boxes[|links| - 1] != Some(false)
    ensures Kept(selected, links, boxes) == Kept(selected, links[..|links| - 1], boxes[..|links| - 1])
  {
    var n := |links| - 1;
    forall x ensures NeverUnticked(x, links, boxes) == NeverUnticked(x, links[..n], boxes[..n]) {
      if NeverUnticked(x, links[..n], boxes[..n]) {
        forall j | 0 <= j < |links| && links[j] == x ensures boxes[j] != Some(false) {
          if j < n { assert links[..n][j] == x; }
        }
      }
    }
    FilterExt(selected, x => NeverUnticked(x, links, boxes), x => NeverUnticked(x, links[..n], boxes[..n]));
  }

  // ---------------------------------------------------------------------
  // The page's session state

  class Session {
    var properties: Option<seq<Listing>>
    var selectedLinks: Option<seq<string>>
    var screenshotResults: Option<seq<CaptureResult>>

    /** The selection never holds a link twice. */
    ghost predicate Valid()
      reads this
    {
      selectedLinks.Some? ==> NoDup(selectedLinks.value)
    }

    /** A fresh session holds none of the three keys. */
    constructor ()
      ensures Valid()
      ensures properties.None? && selectedLinks.None? && screenshotResults.None?
    {
      properties, selectedLinks, screenshotResults := None, None, None;
    }

    /** The "Search Properties" button: `found` is what the search returned,
        `None` when it raised. Only a non-empty result replaces the rows. */
    method StoreSearchResults(found: Option<seq<SearchResult>>)
      requires Valid()
      modifies this
      ensures Valid()
      ensures properties == if found.Some? && found.value != [] then Some(ToListings(found.value)) else old(properties)
      ensures selectedLinks == old(selectedLinks) && screenshotResults == old(screenshotResults)
    {
      if found.Some? && found.value != [] {
        properties := Some(ToListings(found.value));
      }
    }

    /** The results section: create an empty selection if there is none,
        then visit every row with the value its checkbox reports (`boxes`,
        one per row). */
    method ShowSearchResults(boxes: seq<Option<bool>>)
      requires Valid()
      requires properties.Some? ==> |boxes| == |properties.value|
      modifies this
      ensures Valid()
      ensures properties == old(properties) && screenshotResults == old(screenshotResults)
      ensures old(properties).None? ==> selectedLinks == old(selectedLinks)
      ensures old(properties).Some? ==>
        selectedLinks == Some(Synced(old(if selectedLinks.Some? then selectedLinks.value else []),
                                     Links(properties.value), boxes))
    {
      if properties.None? {
        return;
      }
      if selectedLinks.None? {
        selectedLinks := Some([]);
      }
      var rows := properties.value;
      var links := Links(rows);
      ghost var start := selectedLinks.value;
      var i := 0;
      while i < |rows|
        invariant 0 <= i <= |rows|
        invariant selectedLinks.Some? && NoDup(selectedLinks.value)
        invariant selectedLinks.value == Synced(start, links[..i], boxes[..i])
        invariant properties == old(properties) && screenshotResults == old(screenshotResults)
      {
        var link := rows[i].link;
        var current := selectedLinks.value;
        var selected := if boxes[i].Some? then boxes[i].value else link in current;
        if selected {
          if link !in current {
            AppendNoDup(current, link);
            selectedLinks := Some(current + [link]);
          }
        } else {
          if link in current {
            selectedLinks := Some(Remove(current, link));
          }
        }
        assert links[..i + 1][..i] == links[..i] && boxes[..i + 1][..i] == boxes[..i];
        i := i + 1;
      }
      assert links[..|rows|] == links && boxes[..|rows|] == boxes;
    }

    /** The "Capture Screenshots" button, shown only below the search
        results: `captured` is what the capture pipeline returned for the
        selected links, `None` when it raised. With a non-empty selection the
        result list is created if missing and gains the usable captures, in
        order. */
    method CaptureScreenshots(captured: Option<seq<CaptureResult>>)
      requires Valid()
      modifies this
      ensures Valid()
      ensures properties == old(properties) && selectedLinks == old(selectedLinks)
      ensures (old(properties).None? || old(selectedLinks).None? || old(selectedLinks).value == []) ==>
        screenshotResults == old(screenshotResults)
      ensures old(properties).Some? && old(selectedLinks).Some? && old(selectedLinks).value != [] ==>
        screenshotResults == Some(old(if screenshotResults.Some? then screenshotResults.value else []) +
                                  (if captured.Some? then Filter(captured.value, Usable) else []))
    {
      if properties.None? || selectedLinks.None? || selectedLinks.value == [] {
        return;
      }
      if screenshotResults.None? {
        screenshotResults := Some([]);
      }
      if captured.Some? {
        KeepUsable(captured.value);
      } else {
        assert screenshotResults.value + [] == screenshotResults.value;
      }
    }

    /** The loop over the capture results: each one without an error, in
        itself or in its AI response, is appended to the result list. */
    method KeepUsable(results: seq<CaptureResult>)
      requires screenshotResults.Some?
      modifies this
      ensures properties == old(properties) && selectedLinks == old(selectedLinks)
      ensures screenshotResults == Some(old(screenshotResults.value) + Filter(results, Usable))
    {
      ghost var base := screenshotResults.value;
      assert base + Filter(results[..0], Usable) == base;
      var i := 0;
      while i < |results|
        invariant 0 <= i <= |results|
        invariant screenshotResults == Some(base + Filter(results[..i], Usable))
        invariant properties == old(properties) && selectedLinks == old(selectedLinks)
      {
        var result := results[i];
        AppendFilterStep(base, results, i, Usable);
        var usable := result.error.None? && ErrorKey !in result.aiResponse;
        assert usable == Usable(result);
        if usable {
          screenshotResults := Some(screenshotResults.value + [result]);
        }
        i := i + 1;
      }
      assert results[..|results|] == results;
    }

    /** The sidebar's "Reset Session State": pops `properties`, then
        `selected_links`; a missing key raises at that pop. */
    method Reset() returns (outcome: ClearOutcome)
      requires Valid()
      modifies this
      ensures Valid()
      ensures screenshotResults == old(screenshotResults)
      ensures old(properties).None? ==>
        outcome == MissingKey(PropertiesKey) && properties == old(properties) && selectedLinks == old(selectedLinks)
      ensures old(properties).Some? && old(selectedLinks).None? ==>
        outcome == MissingKey(SelectedLinksKey) && properties.None? && selectedLinks.None?
      ensures old(properties).Some? && old(selectedLinks).Some? ==>
        outcome == Cleared && properties.None? && selectedLinks.None?
    {
      if properties.None? {
        return MissingKey(PropertiesKey);
      }
      properties := None;
      if selectedLinks.None? {
        return MissingKey(SelectedLinksKey);
      }
      selectedLinks := None;
      outcome := Cleared;
    }

    /** "Save to BigQuery": `inserted` tells whether creating the table and
        inserting the results returned normally. The insert reads
        `screenshot_results` first, so with that key absent it raises before
        any pop. On success the three keys are popped in turn; a missing key
        raises at that pop. */
    method SaveResults(inserted: bool) returns (outcome: ClearOutcome)
      requires Valid()
      modifies this
      ensures Valid()
      ensures (!inserted || old(screenshotResults).None?) ==>
        (outcome == InsertFailed &&
         properties == old(properties) && selectedLinks == old(selectedLinks) &&
         screenshotResults == old(screenshotResults))
      ensures inserted && old(screenshotResults).Some? && old(properties).None? ==>
        (outcome == MissingKey(PropertiesKey) &&
         properties == old(properties) && selectedLinks == old(selectedLinks) &&
         screenshotResults == old(screenshotResults))
      ensures inserted && old(screenshotResults).Some? && old(properties).Some? && old(selectedLinks).None? ==>
        outcome == MissingKey(SelectedLinksKey) && properties.None? && selectedLinks.None? &&
        screenshotResults == old(screenshotResults)
      ensures inserted && old(properties).Some? && old(selectedLinks).Some? && old(screenshotResults).Some? ==>
        outcome == Cleared && properties.None? && selectedLinks.None? && screenshotResults.None?
    {
      if !inserted || screenshotResults.None? {
        return InsertFailed;
      }
      if properties.None? {
        return MissingKey(PropertiesKey);
      }
      properties := None;
      if selectedLinks.None? {
        return MissingKey(SelectedLinksKey);
      }
      selectedLinks := None;
      screenshotResults := None;
      outcome := Cleared;
    }
  }
}
