/**
 * The response grid: candidate -> (item -> score), both levels ordered
 * dicts.  A score is 1 (the credited response), 0 (any other response)
 * or absent (the candidate gave no response).  The grid is built once from
 * the response log and the answer keys and is read-only afterwards.
 */
module Responses {
  import opened Dicts

  type CandidateId = string
  type ItemId = string

  /** A scored response earns one point when credited and none otherwise. */
  type Point = x: int | 0 <= x <= 1

  /** A grid cell; `Omitted` is the source's `None`. */
  datatype Score = Omitted | Scored(point: Point)

  type Row = Dict<ItemId, Score>
  type Grid = Dict<CandidateId, Row>

  /** One line of the response log: candidate, item, response text. */
  datatype Response = Response(candidate: CandidateId, item: ItemId, text: string)

  /**
   * The grid invariant: the candidate dict is consistent, every row is
   * consistent, and every row holds the same item keys as the first one.
   */
  ghost predicate WellFormed(g: Grid)
  {
    g.Valid() &&
    forall j :: 0 <= j < |g.keys| ==>
      g.keys[j] in g.values && g.values[g.keys[j]].Valid() &&
      g.values[g.keys[j]].values.Keys == g.values[g.keys[0]].values.Keys
  }

  /** Every candidate's row has a cell for `item`. */
  ghost predicate HasItem(g: Grid, item: ItemId)
  {
    forall c :: c in g.values ==> item in g.values[c].values
  }

  /** Every candidate's row has a cell for every item of `items`. */
  ghost predicate Covers(g: Grid, items: seq<ItemId>)
  {
    g.Valid() && forall it :: it in items ==> HasItem(g, it)
  }

  /**
   * Scores one response against the answer key of its item.  The key is
   * looked up first, so an item without a key fails even when the
   * response is empty.
   */
  function CheckKey(item: ItemId, resp: string, keys: map<ItemId, string>): (s: Score)
    requires item in keys
    ensures s == Omitted <==> resp == ""
    ensures s == Scored(1) <==> resp != "" && resp == keys[item]
    ensures s == Scored(0) <==> resp != "" && resp != keys[item]
  {
    var key := keys[item];
    if resp == "" then Omitted
    else if resp == key then Scored(1)
    else Scored(0)
  }

  /**
   * The cell that the response log leaves for candidate `c` and item `it`:
   * the score of the latest matching line, or `Omitted` if none matches.
   */
  function Recorded(log: seq<Response>, c: CandidateId, it: ItemId, keys: map<ItemId, string>): Score
    requires forall r :: r in log ==> r.item in keys
  {
    if log == [] then Omitted
    else
      var last := log[|log| - 1];
      if last.candidate == c && last.item == it then CheckKey(it, last.text, keys)
      else Recorded(log[..|log| - 1], c, it, keys)
  }

  /** A cell no line of the log mentions stays blank. */
  lemma {:induction false} RecordedWithoutResponse(log: seq<Response>, c: CandidateId, it: ItemId, keys: map<ItemId, string>)
    requires forall r :: r in log ==> r.item in keys
    requires forall r :: r in log ==> r.candidate != c || r.item != it
    ensures Recorded(log, c, it, keys) == Omitted
  {
    if log != [] {
      assert log[|log| - 1] in log;
      RecordedWithoutResponse(log[..|log| - 1], c, it, keys);
    }
  }

  /** A cell holds the score of the last log line for it: later lines overwrite earlier ones. */
  lemma {:induction false} RecordedIsLatest(log: seq<Response>, k: nat, keys: map<ItemId, string>)
    requires forall r :: r in log ==> r.item in keys
    requires k < |log|
    requires forall m :: k < m < |log| ==> log[m].candidate != log[k].candidate || log[m].item != log[k].item
    ensures Recorded(log, log[k].candidate, log[k].item, keys) == CheckKey(log[k].item, log[k].text, keys)
  {
    if k < |log| - 1 {
      var init := log[..|log| - 1];
      assert init[k] == log[k];
      RecordedIsLatest(init, k, keys);
    }
  }

  /** Reading one more log line changes only the cell that line names. */
  lemma RecordedStep(log: seq<Response>, k: nat, c: CandidateId, it: ItemId, keys: map<ItemId, string>)
    requires forall r :: r in log ==> r.item in keys
    requires k < |log|
    ensures Recorded(log[..k + 1], c, it, keys) ==
      if log[k].candidate == c && log[k].item == it then CheckKey(it, log[k].text, keys)
      else Recorded(log[..k], c, it, keys)
  {
    assert log[..k + 1][..k] == log[..k];
  }

  /** One candidate's row before any response is read: every item, blank. */
  method BlankRow(items: seq<ItemId>) returns (row: Row)
    requires Distinct(items)
    ensures row.Valid() && row.keys == items
    ensures forall it :: it in row.values ==> row.values[it] == Omitted
  {
    row := Dict([], map[]);
    for j := 0 to |items|
      invariant row.Valid() && row.keys == items[..j]
      invariant forall it :: it in row.values ==> row.values[it] == Omitted
    {
      assert items[j] !in items[..j];
      row := row.Put(items[j], Omitted);
      assert items[..j + 1] == items[..j] + [items[j]];
    }
    assert items[..|items|] == items;
  }

  /** The grid before any response is read: a blank row per candidate, in order. */
  method BlankGrid(candidates: seq<CandidateId>, items: seq<ItemId>) returns (g: Grid)
    requires Distinct(candidates) && Distinct(items)
    ensures g.Valid() && g.keys == candidates
    ensures forall c :: c in g.values ==> g.values[c].Valid() && g.values[c].keys == items
    ensures forall c, it :: c in g.values && it in g.values[c].values ==> g.values[c].values[it] == Omitted
  {
    g := Dict([], map[]);
    for i := 0 to |candidates|
      invariant g.Valid() && g.keys == candidates[..i]
      invariant forall c :: c in g.values ==> g.values[c].Valid() && g.values[c].keys == items
      invariant forall c, it :: c in g.values && it in g.values[c].values ==> g.values[c].values[it] == Omitted
    {
      var row := BlankRow(items);
      assert candidates[i] !in candidates[..i];
      g := g.Put(candidates[i], row);
      assert candidates[..i + 1] == candidates[..i] + [candidates[i]];
    }
    assert candidates[..|candidates|] == candidates;
  }

  /**
   * The in-memory part of building the grid: every candidate row is first
   * filled with blanks for every item, then every log line overwrites its
   * cell with the scored response.
   */
  method MakeDataBase(candidates: seq<CandidateId>, items: seq<ItemId>, log: seq<Response>, keys: map<ItemId, string>)
    returns (g: Grid)
    requires Distinct(candidates) && Distinct(items)
    requires forall r :: r in log ==> r.candidate in candidates && r.item in items && r.item in keys
    ensures WellFormed(g) && g.keys == candidates
    ensures forall c :: c in g.values ==> g.values[c].keys == items
    ensures forall c, it :: c in g.values && it in items ==>
      it in g.values[c].values && g.values[c].values[it] == Recorded(log, c, it, keys)
  {
    g := BlankGrid(candidates, items);
    g := ScoreResponses(g, items, log, keys);
    SameItemsWellFormed(g, items);
  }

  /** Overwrites, line by line of the log, the cell each line names with its score. */
  method ScoreResponses(blank: Grid, items: seq<ItemId>, log: seq<Response>, keys: map<ItemId, string>)
    returns (g: Grid)
    requires blank.Valid()
    requires forall c :: c in blank.values ==> blank.values[c].Valid() && blank.values[c].keys == items
    requires forall c, it :: c in blank.values && it in blank.values[c].values ==> blank.values[c].values[it] == Omitted
    requires forall r :: r in log ==> r.candidate in blank.values && r.item in items && r.item in keys
    ensures g.Valid() && g.keys == blank.keys
    ensures forall c :: c in g.values ==> g.values[c].Valid() && g.values[c].keys == items
    ensures forall c, it :: c in g.values && it in items ==>
      it in g.values[c].values && g.values[c].values[it] == Recorded(log, c, it, keys)
  {
    g := blank;
    for k := 0 to |log|
      invariant g.Valid() && g.keys == blank.keys
      invariant forall c :: c in g.values ==> g.values[c].Valid() && g.values[c].keys == items
      invariant forall c, it :: c in g.values && it in items ==>
        it in g.values[c].values && g.values[c].values[it] == Recorded(log[..k], c, it, keys)
    {
      g := ScoreResponse(g, items, log, k, keys);
    }
    assert log[..|log|] == log;
  }

  /** `d[cand][item] = check_key(item, resp, d_keys)` for log line `k`. */
  method ScoreResponse(g: Grid, items: seq<ItemId>, log: seq<Response>, k: nat, keys: map<ItemId, string>)
    returns (g': Grid)
    requires k < |log|
    requires g.Valid()
    requires forall r :: r in log ==> r.candidate in g.values && r.item in items && r.item in keys
    requires forall c :: c in g.values ==> g.values[c].Valid() && g.values[c].keys == items
    requires forall c, it :: c in g.values && it in items ==>
      it in g.values[c].values && g.values[c].values[it] == Recorded(log[..k], c, it, keys)
    ensures g'.Valid() && g'.keys == g.keys
    ensures forall c :: c in g'.values ==> g'.values[c].Valid() && g'.values[c].keys == items
    ensures forall c, it :: c in g'.values && it in items ==>
      it in g'.values[c].values && g'.values[c].values[it] == Recorded(log[..k + 1], c, it, keys)
  {
    var r := log[k];
    assert r in log;
    var point := CheckKey(r.item, r.text, keys);
    var row := g.values[r.candidate];
    var updated := row.Put(r.item, point);
    g' := g.Put(r.candidate, updated);
    forall c, it | c in g'.values && it in items
      ensures it in g'.values[c].values && g'.values[c].values[it] == Recorded(log[..k + 1], c, it, keys)
    {
      RecordedStep(log, k, c, it, keys);
      if c == r.candidate {
        assert g'.values[c] == updated;
      } else {
        assert g'.values[c] == g.values[c];
      }
    }
  }

  /** A grid whose rows all list the same items satisfies the grid invariant. */
  lemma SameItemsWellFormed(g: Grid, items: seq<ItemId>)
    requires g.Valid()
    requires forall c :: c in g.values ==> g.values[c].Valid() && g.values[c].keys == items
    ensures WellFormed(g)
  {
    forall j | 0 <= j < |g.keys|
      ensures g.values[g.keys[j]].values.Keys == g.values[g.keys[0]].values.Keys
    {
      var a, b := g.values[g.keys[j]], g.values[g.keys[0]];
      assert forall it :: it in a.values <==> it in items;
      assert forall it :: it in b.values <==> it in items;
    }
  }

  /**
   * The form's item list, read off the first candidate's row.  Because every
   * row holds the same items, this lists each item of every row exactly once.
   */
  function ExtractItemIds(g: Grid): (items: seq<ItemId>)
    requires WellFormed(g) && |g.keys| > 0
    ensures Distinct(items) && Covers(g, items)
    ensures forall c, it :: c in g.values ==> (it in g.values[c].values <==> it in items)
  {
    var first := g.values[g.keys[0]];
    assert forall c :: c in g.values ==> exists j :: 0 <= j < |g.keys| && g.keys[j] == c;
    first.keys
  }
}
