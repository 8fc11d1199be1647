/**
 * `ensure_sheet_exists`: make sure the spreadsheet has a tab with a given
 * title, creating it with one `addSheet` batch update only when it is absent.
 * The remote spreadsheet is modelled by the metadata of its tabs and the log
 * of batch updates sent to it.
 */
module SheetsClient {
  import opened Wrappers

  /** A tab's `properties` as the metadata reports them; the title may be absent. */
  datatype TabProperties = TabProperties(title: Option<string>)

  /** One entry of the metadata's `sheets` list; its `properties` may be absent. */
  datatype Tab = Tab(properties: Option<TabProperties>)

  /** A request inside a `batchUpdate` body. */
  datatype Request = AddSheet(title: string)

  /** `s.get('properties', {}).get('title')`: `None` when either level is missing. */
  function TitleOf(tab: Tab): (r: Option<string>)
    ensures r.Some? <==> tab.properties.Some? && tab.properties.value.title.Some?
  {
    match tab.properties
    case None => None
    case Some(p) => p.title
  }

  /** The title list of the tabs, in tab order. */
  function Titles(tabs: seq<Tab>): (ts: seq<Option<string>>)
    ensures |ts| == |tabs|
    ensures forall i :: 0 <= i < |tabs| && tabs[i].properties.None? ==> ts[i].None?
  {
    seq(|tabs|, i requires 0 <= i < |tabs| => TitleOf(tabs[i]))
  }

  /** `sheet_title in titles`. */
  predicate HasTitle(tabs: seq<Tab>, title: string)
    ensures HasTitle(tabs, title) <==> exists i :: 0 <= i < |tabs| && TitleOf(tabs[i]) == Some(title)
  {
    assert forall i :: 0 <= i < |tabs| ==> Titles(tabs)[i] == TitleOf(tabs[i]);
    Some(title) in Titles(tabs)
  }

  /** The tab the service appends for an `addSheet` request. */
  function NewTab(title: string): (t: Tab)
    ensures TitleOf(t) == Some(title)
  {
    Tab(Some(TabProperties(Some(title))))
  }

  /** The tabs after the service applies a batch: each `addSheet` appends a tab. */
  function ApplyBatch(tabs: seq<Tab>, batch: seq<Request>): (r: seq<Tab>)
    ensures |r| == |tabs| + |batch| && r[..|tabs|] == tabs
    ensures forall i :: 0 <= i < |batch| ==> r[|tabs| + i] == NewTab(batch[i].title)
    decreases |batch|
  {
    if batch == [] then tabs
    else ApplyBatch(tabs + [NewTab(batch[0].title)], batch[1..])
  }

  /** The batch updates `ensure_sheet_exists` sends: none, or one holding a single `addSheet`. */
  function EnsureRequests(tabs: seq<Tab>, title: string): (r: seq<seq<Request>>)
    ensures |r| <= 1
    ensures forall b :: b in r ==> b == [AddSheet(title)]
  {
    if HasTitle(tabs, title) then [] else [[AddSheet(title)]]
  }

  /** The tabs once the batch updates of `ensure_sheet_exists` are applied. */
  function AfterEnsure(tabs: seq<Tab>, title: string): (r: seq<Tab>)
    ensures |tabs| <= |r| <= |tabs| + 1 && r[..|tabs|] == tabs
  {
    if HasTitle(tabs, title) then tabs else ApplyBatch(tabs, [AddSheet(title)])
  }

  /** The remote spreadsheet: its tabs, and every batch update it has received. */
  class Spreadsheet {
    var tabs: seq<Tab>
    var batches: seq<seq<Request>>

    constructor (tabs: seq<Tab>)
      ensures this.tabs == tabs && batches == []
    {
      this.tabs := tabs;
      batches := [];
    }

    /** `[s.get('properties', {}).get('title') for s in sheets]` over the current metadata. */
    method TitleList() returns (titles: seq<Option<string>>)
      ensures |titles| == |tabs|
      ensures forall t :: Some(t) in titles <==> HasTitle(tabs, t)
      ensures titles == Titles(tabs)
    {
      var sheets := tabs;
      titles := [];
      for i := 0 to |sheets|
        invariant titles == Titles(sheets[..i])
      {
        assert Titles(sheets[..i + 1]) == Titles(sheets[..i]) + [TitleOf(sheets[i])];
        titles := titles + [TitleOf(sheets[i])];
      }
      assert sheets[..|sheets|] == sheets;
    }

    /** `batchUpdate`: the service records the batch and applies it. */
    method BatchUpdate(requests: seq<Request>)
      modifies this
      ensures batches == old(batches) + [requests]
      ensures tabs == ApplyBatch(old(tabs), requests)
    {
      batches := batches + [requests];
      tabs := ApplyBatch(tabs, requests);
    }

    /** `ensure_sheet_exists(service, spreadsheet_id, sheet_title)`. */
    method EnsureSheetExists(sheetTitle: string)
      modifies this
      ensures batches == old(batches) + EnsureRequests(old(tabs), sheetTitle)
      ensures tabs == AfterEnsure(old(tabs), sheetTitle)
    {
      var titles := TitleList();
      if Some(sheetTitle) in titles {
        return;
      }
      var requests := [AddSheet(sheetTitle)];
      BatchUpdate(requests);
    }
  }

  // ---------------------------------------------------------------------------
  // Properties

  /** A tab counts as titled `title` only through a present properties map holding that title. */
  lemma HasTitleIff(tabs: seq<Tab>, title: string)
    ensures HasTitle(tabs, title) <==>
              exists i :: 0 <= i < |tabs| && tabs[i].properties.Some? && tabs[i].properties.value.title == Some(title)
  {
    if HasTitle(tabs, title) {
      var i :| 0 <= i < |tabs| && Titles(tabs)[i] == Some(title);
      assert TitleOf(tabs[i]) == Some(title);
    }
    if exists i :: 0 <= i < |tabs| && tabs[i].properties.Some? && tabs[i].properties.value.title == Some(title) {
      var i :| 0 <= i < |tabs| && tabs[i].properties.Some? && tabs[i].properties.value.title == Some(title);
      assert Titles(tabs)[i] == Some(title);
    }
  }

  /** Appending a tab adds its title, if it has one, to the titles present. */
  lemma HasTitleAppend(tabs: seq<Tab>, tab: Tab, t: string)
    ensures HasTitle(tabs + [tab], t) <==> HasTitle(tabs, t) || TitleOf(tab) == Some(t)
  {
    assert Titles(tabs + [tab]) == Titles(tabs) + [TitleOf(tab)];
  }

  /** A tab without properties or without a title never matches any title. */
  lemma UntitledNeverMatches(tabs: seq<Tab>, tab: Tab, t: string)
    requires tab.properties.None? || tab.properties.value.title.None?
    ensures HasTitle(tabs + [tab], t) <==> HasTitle(tabs, t)
  {
    HasTitleAppend(tabs, tab, t);
  }

  /** A create is requested exactly when the title is absent, as one batch holding one `addSheet` for it. */
  lemma EnsureCreatesOnlyWhenAbsent(tabs: seq<Tab>, title: string)
    ensures HasTitle(tabs, title) ==> EnsureRequests(tabs, title) == []
    ensures !HasTitle(tabs, title) ==> EnsureRequests(tabs, title) == [[AddSheet(title)]]
    ensures forall b, r :: b in EnsureRequests(tabs, title) && r in b ==> r == AddSheet(title)
  {
  }

  /**
   * Afterwards the title is present, the titles present are exactly the old
   * ones plus it, and the old tabs are still there, first and in order.
   */
  lemma AfterEnsureSpec(tabs: seq<Tab>, title: string)
    ensures HasTitle(AfterEnsure(tabs, title), title)
    ensures forall t :: HasTitle(AfterEnsure(tabs, title), t) <==> HasTitle(tabs, t) || t == title
    ensures |tabs| <= |AfterEnsure(tabs, title)| <= |tabs| + 1
    ensures AfterEnsure(tabs, title)[..|tabs|] == tabs
  {
    if !HasTitle(tabs, title) {
      calc {
        AfterEnsure(tabs, title);
        ApplyBatch(tabs, [AddSheet(title)]);
        { assert [AddSheet(title)][0].title == title && [AddSheet(title)][1..] == []; }
        ApplyBatch(tabs + [NewTab(title)], []);
        tabs + [NewTab(title)];
      }
      forall t
        ensures HasTitle(tabs + [NewTab(title)], t) <==> HasTitle(tabs, t) || t == title
      {
        HasTitleAppend(tabs, NewTab(title), t);
      }
    }
  }

  /** A second call straight after the first requests nothing and changes nothing. */
  lemma EnsureIdempotent(tabs: seq<Tab>, title: string)
    ensures EnsureRequests(AfterEnsure(tabs, title), title) == []
    ensures AfterEnsure(AfterEnsure(tabs, title), title) == AfterEnsure(tabs, title)
  {
    AfterEnsureSpec(tabs, title);
  }

  /** Two consecutive calls for one title send at most one create in total. */
  lemma TwoCallsAtMostOneCreate(tabs: seq<Tab>, title: string)
    ensures |EnsureRequests(tabs, title)| + |EnsureRequests(AfterEnsure(tabs, title), title)| <= 1
  {
    EnsureIdempotent(tabs, title);
  }
}
