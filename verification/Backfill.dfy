/**
 * The paged backfill of files.content_yjs. Ids stand for their rank in the column's order, with 0 for
 * the empty string; a document stands for the text it was made from.
 */
module Backfill {
  import opened Common

  type Id = nat

  datatype Row = Row(id: Id, project: string, content: Option<string>, isBinary: bool, yjs: Option<string>)

  /** The table in primary-key order. */
  ghost predicate Keyed(rows: seq<Row>) { forall i, j :: 0 <= i < j < |rows| ==> rows[i].id < rows[j].id }

  predicate Qualifies(r: Row, project: Option<string>) {
    (project.Some? ==> r.project == project.value) && r.yjs == None && !r.isBinary
  }

  predicate HasText(r: Row) { r.content.Some? && r.content.value != "" }

  /** The first `batch` qualifying rows after id `last`. */
  function Page(rows: seq<Row>, project: Option<string>, last: Id, batch: nat): seq<Row>
    decreases |rows|
  {
    if rows == [] || batch == 0 then []
    else if Qualifies(rows[0], project) && rows[0].id > last then [rows[0]] + Page(rows[1..], project, last, batch - 1)
    else Page(rows[1..], project, last, batch)
  }

  /** The UPDATE of one row. */
  function Updated(rows: seq<Row>, id: Id, project: string, text: string): (after: seq<Row>)
    ensures |after| == |rows|
    ensures forall i :: 0 <= i < |rows| ==>
              after[i] == if rows[i].id == id && rows[i].project == project && rows[i].yjs == None
                          then rows[i].(yjs := Some(text)) else rows[i]
  {
    seq(|rows|, i requires 0 <= i < |rows| =>
      if rows[i].id == id && rows[i].project == project && rows[i].yjs == None then rows[i].(yjs := Some(text))
      else rows[i])
  }

  // ---------------------------------------------------------------- the meaning of a backfill

  /** A text file without a document, in the project if one is given. */
  ghost predicate Waiting(r: Row, project: Option<string>) {
    r.yjs == None && !r.isBinary && project in {None, Some(r.project)}
  }

  /** The rows a backfill is for; the empty id comes after no id, so a row that has it is out of reach. */
  ghost predicate Due(r: Row, project: Option<string>) { Waiting(r, project) && r.id > 0 }

  ghost predicate Blank(r: Row) { r.content in {None, Some("")} }

  ghost function Filled(r: Row, project: Option<string>): Row {
    if Due(r, project) && !Blank(r) then r.(yjs := r.content) else r
  }

  /** Every due row with text up to id `last` holds the document of its text; all else is as it was. */
  ghost predicate FilledUpTo(before: seq<Row>, after: seq<Row>, project: Option<string>, last: Id) {
    |after| == |before|
    && forall i :: 0 <= i < |before| ==>
         after[i] == if before[i].id <= last then Filled(before[i], project) else before[i]
  }

  ghost predicate AllFilled(before: seq<Row>, after: seq<Row>, project: Option<string>) {
    |after| == |before| && forall i :: 0 <= i < |before| ==> after[i] == Filled(before[i], project)
  }

  /** `visited` is every due row up to `last`, once, in order. */
  ghost predicate VisitedUpTo(rows: seq<Row>, visited: seq<Row>, project: Option<string>, last: Id) {
    && Keyed(visited)
    && forall r :: r in visited <==> r in rows && Due(r, project) && r.id <= last
  }

  ghost function WithText(rows: seq<Row>): nat {
    if rows == [] then 0 else WithText(rows[..|rows| - 1]) + if Blank(rows[|rows| - 1]) then 0 else 1
  }

  // ---------------------------------------------------------------- one page

  lemma HeadIsLeast(rows: seq<Row>)
    requires Keyed(rows) && rows != []
    ensures Keyed(rows[1..])
    ensures forall r :: r in rows <==> r == rows[0] || r in rows[1..]
    ensures forall r :: r in rows[1..] ==> r.id > rows[0].id
  {
    assert rows == [rows[0]] + rows[1..];
  }

  /** A page is empty when nothing qualifies after `last`; otherwise it starts with the next qualifying
      row and goes on as the page after that one. */
  lemma {:induction false} PageStep(rows: seq<Row>, project: Option<string>, last: Id, batch: nat)
    requires Keyed(rows) && batch > 0
    ensures var page := Page(rows, project, last, batch);
            if page == [] then forall r :: r in rows && Waiting(r, project) ==> r.id <= last
            else && page[0] in rows && Waiting(page[0], project) && page[0].id > last
                 && (forall r :: r in rows && Waiting(r, project) && r.id > last ==> r.id >= page[0].id)
                 && page[1..] == Page(rows, project, page[0].id, batch - 1)
    decreases |rows|
  {
    if rows != [] {
      var rest := rows[1..];
      HeadIsLeast(rows);
      if Qualifies(rows[0], project) && rows[0].id > last {
        SkipHead(rest, project, last, rows[0].id, batch - 1);
      } else {
        PageStep(rest, project, last, batch);
      }
    }
  }

  /** Rows that all come after both ids give the same page for either. */
  lemma {:induction false} SkipHead(rows: seq<Row>, project: Option<string>, last: Id, later: Id, batch: nat)
    requires forall r :: r in rows ==> r.id > last && r.id > later
    ensures Page(rows, project, last, batch) == Page(rows, project, later, batch)
    decreases |rows|
  {
    if rows != [] && batch > 0 {
      SkipHead(rows[1..], project, last, later, if Qualifies(rows[0], project) then batch - 1 else batch);
    }
  }

  /** Filling rows up to `last` does not change the pages after it. */
  lemma {:induction false} PageAfterFill(
    before: seq<Row>, after: seq<Row>, project: Option<string>, last: Id, batch: nat)
    requires FilledUpTo(before, after, project, last)
    ensures Page(after, project, last, batch) == Page(before, project, last, batch)
    decreases |before|
  {
    if before != [] && batch > 0 {
      assert FilledUpTo(before[1..], after[1..], project, last);
      if before[0].id > last && Qualifies(before[0], project) {
        PageAfterFill(before[1..], after[1..], project, last, batch - 1);
      } else {
        PageAfterFill(before[1..], after[1..], project, last, batch);
      }
    }
  }

  /** The rows before `i` contributed `page` to the page. */
  ghost predicate PageSoFar(
    rows: seq<Row>, project: Option<string>, last: Id, batch: nat, i: nat, page: seq<Row>)
  {
    && i <= |rows| && |page| <= batch
    && page + Page(rows[i..], project, last, batch - |page|) == Page(rows, project, last, batch)
  }

  lemma PageGrows(rows: seq<Row>, project: Option<string>, last: Id, batch: nat, i: nat, page: seq<Row>)
    requires PageSoFar(rows, project, last, batch, i, page) && i < |rows| && |page| < batch
    ensures PageSoFar(rows, project, last, batch, i + 1,
                      if Qualifies(rows[i], project) && rows[i].id > last then page + [rows[i]] else page)
  {
    assert rows[i..][1..] == rows[i + 1..] && rows[i..][0] == rows[i];
    ConcatAssociates(page, [rows[i]], Page(rows[i + 1..], project, last, batch - |page| - 1));
  }

  lemma PageEnds(rows: seq<Row>, project: Option<string>, last: Id, batch: nat, i: nat, page: seq<Row>)
    requires PageSoFar(rows, project, last, batch, i, page) && (i == |rows| || |page| == batch)
    ensures page == Page(rows, project, last, batch)
  {
    assert Page(rows[i..], project, last, batch - |page|) == [];
  }

  ghost predicate NextDue(rows: seq<Row>, project: Option<string>, last: Id, r: Row) {
    r in rows && Waiting(r, project) && r.id > last
    && forall s :: s in rows && Waiting(s, project) && s.id > last ==> s.id >= r.id
  }

  /** Visiting the next row moves the filled part up to it. */
  lemma FillNext(before: seq<Row>, after: seq<Row>, project: Option<string>, last: Id, r: Row)
    requires Keyed(before) && FilledUpTo(before, after, project, last) && NextDue(before, project, last, r)
    ensures FilledUpTo(before, if HasText(r) then Updated(after, r.id, r.project, r.content.value) else after,
                       project, r.id)
  {
    var filled := if HasText(r) then Updated(after, r.id, r.project, r.content.value) else after;
    var k :| 0 <= k < |before| && before[k] == r;
    forall i | 0 <= i < |before|
      ensures filled[i] == if before[i].id <= r.id then Filled(before[i], project) else before[i]
    {
      assert before[i] in before;
      if i != k { assert before[i].id != r.id; }
    }
  }

  lemma VisitNext(rows: seq<Row>, visited: seq<Row>, project: Option<string>, last: Id, r: Row)
    requires Keyed(rows) && VisitedUpTo(rows, visited, project, last) && NextDue(rows, project, last, r)
    ensures VisitedUpTo(rows, visited + [r], project, r.id)
    ensures WithText(visited + [r]) == WithText(visited) + if Blank(r) then 0 else 1
  {
    assert (visited + [r])[..|visited|] == visited;
    forall s | s in rows && Due(s, project) && last < s.id <= r.id ensures s == r {
      var i :| 0 <= i < |rows| && rows[i] == s;
      var j :| 0 <= j < |rows| && rows[j] == r;
    }
  }

  datatype Tally = Tally(seen: nat, migrated: nat, skipped: nat)

  /** Where the backfill stands once every due row up to `last` is handled. */
  ghost predicate Progress(
    before: seq<Row>, after: seq<Row>, visited: seq<Row>, project: Option<string>, last: Id, t: Tally)
  {
    && FilledUpTo(before, after, project, last) && VisitedUpTo(before, visited, project, last)
    && t.seen == |visited| && t.migrated == WithText(visited) && t.seen == t.migrated + t.skipped
  }

  function Counted(t: Tally, r: Row): Tally {
    if HasText(r) then Tally(t.seen + 1, t.migrated + 1, t.skipped) else Tally(t.seen + 1, t.migrated, t.skipped + 1)
  }

  lemma Advance(
    before: seq<Row>, after: seq<Row>, visited: seq<Row>, project: Option<string>, last: Id, t: Tally,
    page: seq<Row>, left: nat)
    requires Keyed(before) && Progress(before, after, visited, project, last, t)
    requires page != [] && left > 0 && page == Page(before, project, last, left)
    ensures var r := page[0];
            && r in before && r.id > last && page[1..] == Page(before, project, r.id, left - 1)
            && Progress(before, if HasText(r) then Updated(after, r.id, r.project, r.content.value) else after,
                        visited + [r], project, r.id, Counted(t, r))
    ensures left > 1 || page[1..] == []
  {
    PageStep(before, project, last, left);
    assert NextDue(before, project, last, page[0]);
    FillNext(before, after, project, last, page[0]);
    VisitNext(before, visited, project, last, page[0]);
  }

  lemma Finish(
    before: seq<Row>, after: seq<Row>, visited: seq<Row>, project: Option<string>, last: Id, t: Tally, batch: nat)
    requires Keyed(before) && Progress(before, after, visited, project, last, t)
    requires batch > 0 && Page(before, project, last, batch) == []
    ensures AllFilled(before, after, project)
    ensures Keyed(visited) && forall r :: r in visited <==> r in before && Due(r, project)
  {
    PageStep(before, project, last, batch);
    forall i | 0 <= i < |before| ensures after[i] == Filled(before[i], project) { assert before[i] in before; }
  }

  ghost predicate Passed(rows: seq<Row>, last: Id, later: Id) { exists r :: r in rows && last < r.id <= later }

  ghost function Ahead(rows: seq<Row>, last: Id): set<Row> { set r | r in rows && r.id > last }

  // ---------------------------------------------------------------- running it again

  /** A run that broke off anywhere and was started again leaves what one whole run would have left. */
  lemma RestartCompletes(before: seq<Row>, part: seq<Row>, after: seq<Row>, project: Option<string>, last: Id)
    requires FilledUpTo(before, part, project, last) && AllFilled(part, after, project)
    ensures AllFilled(before, after, project)
  {
  }

  /** Nothing with text is left waiting exactly when no such row had the empty id. */
  lemma NothingIsLeftIff(before: seq<Row>, after: seq<Row>, project: Option<string>)
    requires AllFilled(before, after, project)
    ensures (forall r :: r in after && Waiting(r, project) ==> Blank(r))
            <==> (forall r :: r in before && r.id == 0 && Waiting(r, project) ==> Blank(r))
  {
    forall i | 0 <= i < |before| && before[i].id == 0 ensures after[i] in after && after[i] == before[i] {}
    forall r | r in after && Waiting(r, project) && !Blank(r) ensures r in before && r.id == 0 {
      var i :| 0 <= i < |after| && after[i] == r;
      assert before[i] in before;
    }
  }

  // ---------------------------------------------------------------- in the code's own form

  class Files {
    var rows: seq<Row>

    constructor (rows: seq<Row>)
      ensures this.rows == rows
    {
      this.rows := rows;
    }

    method All(project: Option<string>, last: Id, batch: nat) returns (page: seq<Row>)
      ensures page == Page(rows, project, last, batch)
    {
      page := [];
      var i := 0;
      assert rows[0..] == rows;
      while i < |rows| && |page| < batch
        invariant PageSoFar(rows, project, last, batch, i, page)
      {
        PageGrows(rows, project, last, batch, i, page);
        if Qualifies(rows[i], project) && rows[i].id > last { page := page + [rows[i]]; }
        i := i + 1;
      }
      PageEnds(rows, project, last, batch, i, page);
    }

    method Run(id: Id, project: string, text: string)
      modifies this
      ensures rows == Updated(old(rows), id, project, text)
    {
      rows := Updated(rows, id, project, text);
    }

    /** One row of a page: counted, and given its document if it has text. */
    method HandleRow(row: Row, t: Tally) returns (t': Tally)
      modifies this
      ensures rows == if Blank(row) then old(rows) else Updated(old(rows), row.id, row.project, row.content.value)
      ensures t' == Counted(t, row)
    {
      if !HasText(row) { return Tally(t.seen + 1, t.migrated, t.skipped + 1); }
      Run(row.id, row.project, row.content.value);
      return Tally(t.seen + 1, t.migrated + 1, t.skipped);
    }

    method HandlePage(
      page: seq<Row>, project: Option<string>, lastId: Id, batchSize: nat, breaksAfter: Option<nat>, t: Tally,
      ghost before: seq<Row>, ghost visited: seq<Row>)
      returns (ok: bool, lastId': Id, t': Tally, ghost visited': seq<Row>)
      requires Keyed(before) && Progress(before, rows, visited, project, lastId, t)
      requires page != [] && batchSize > 0 && page == Page(before, project, lastId, batchSize)
      modifies this
      ensures Progress(before, rows, visited', project, lastId', t')
      ensures ok ==> Passed(before, lastId, lastId')
      ensures breaksAfter == None ==> ok
    {
      lastId', t', visited' := lastId, t, visited;
      var rest := page;
      ghost var left := batchSize;
      while rest != []
        invariant rest != [] ==> left > 0 && rest == Page(before, project, lastId', left)
        invariant if rest == page then lastId' == lastId else Passed(before, lastId, lastId')
        invariant Progress(before, rows, visited', project, lastId', t')
        decreases |rest|
      {
        if breaksAfter == Some(t'.seen) { return false, lastId', t', visited'; }
        var row := rest[0];
        Advance(before, rows, visited', project, lastId', t', rest, left);
        assert Passed(before, lastId, row.id);
        t' := HandleRow(row, t');
        visited', left := visited' + [row], left - 1;
        lastId' := row.id;
        rest := rest[1..];
      }
      ok := true;
    }

    /** `breaksAfter` is how many rows are handled before the database fails, if it does. */
    method Backfill(project: Option<string>, batchSize: nat, breaksAfter: Option<nat>)
      returns (ok: bool, t: Tally, ghost visited: seq<Row>, ghost last: Id)
      requires Keyed(rows) && batchSize > 0
      modifies this
      ensures Progress(old(rows), rows, visited, project, last, t)
      ensures ok ==> AllFilled(old(rows), rows, project)
      ensures ok ==> Keyed(visited) && forall r :: r in visited <==> r in old(rows) && Due(r, project)
      ensures breaksAfter == None ==> ok
    {
      ghost var before := rows;
      t, visited, last := Tally(0, 0, 0), [], 0;
      var lastId: Id := 0;
      while true
        invariant Progress(before, rows, visited, project, lastId, t)
        decreases Ahead(before, lastId)
      {
        var page := All(project, lastId, batchSize);
        PageAfterFill(before, rows, project, lastId, batchSize);
        if page == [] {
          Finish(before, rows, visited, project, lastId, t, batchSize);
          return true, t, visited, lastId;
        }
        ghost var entry := lastId;
        ok, lastId, t, visited := HandlePage(page, project, lastId, batchSize, breaksAfter, t, before, visited);
        if !ok { return false, t, visited, lastId; }
        AheadShrinks(before, entry, lastId);
      }
    }
  }

  lemma AheadShrinks(rows: seq<Row>, last: Id, later: Id)
    requires Passed(rows, last, later)
    ensures Ahead(rows, later) < Ahead(rows, last)
  {
    var r :| r in rows && last < r.id <= later;
    assert r in Ahead(rows, last) && r !in Ahead(rows, later);
  }
}
