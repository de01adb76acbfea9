/**
  The rows of the student roster and the pure logic the roster's operations
  are specified by: loading, the GPA formula, partial-field updates, GPA
  recomputation, ordering by GPA and the lookup by identifier.
 */
module Records {
  import opened Ids
  import opened Calendar

  /** The ways an operation on the roster can fail. */
  datatype Error =
    | MalformedDate   // a date that is not a real calendar date
    | EmptyRoster     // the loaded table has no rows, so there is no last id
    | MalformedId     // the last row's id does not read as an integer
    | NotFound        // no record has the requested id

  datatype Result<T> = Ok(value: T) | Err(error: Error)

  /** One row as it arrives from the table file: the id still an integer, the date not yet checked. */
  datatype Row = Row(id: int, name: string, gender: int, age: int, enrollment: Date,
                     midterm: real, final: real, gpa: real)

  /** One student record held by the roster. */
  datatype Record = Record(id: string, name: string, gender: int, age: int,
                           enrollment: CalendarDate, midterm: real, final: real, gpa: real)

  /** The loaded table together with the counter derived from it. */
  datatype Loaded = Loaded(records: seq<Record>, lastId: int)

  /**
    The fields an update may overwrite; `None` leaves a field as it is. The
    id is not among them: it is the operation's own positional argument.
   */
  datatype Changes = Changes(name: Option<string>, gender: Option<int>, age: Option<int>,
                             enrollment: Option<CalendarDate>, midterm: Option<real>,
                             final: Option<real>, gpa: Option<real>)

  const NoChanges := Changes(None, None, None, None, None, None, None)

  /** The grade point average: 40% of the midterm score and 60% of the final. */
  function Gpa(midterm: real, final: real): (g: real)
    ensures midterm <= final ==> midterm <= g <= final
    ensures final <= midterm ==> final <= g <= midterm
  {
    0.4 * midterm + 0.6 * final
  }

  /** Whether a record's stored GPA agrees with its current scores. */
  predicate GpaCurrent(r: Record) {
    r.gpa == Gpa(r.midterm, r.final)
  }

  // ---------------------------------------------------------------- loading

  /** A table row with its id turned into a zero-padded identifier. */
  function Normalise(row: Row): (r: Record)
    requires ValidDate(row.enrollment)
    ensures ParseInt(r.id) == Some(row.id)
  {
    Record(ZeroPad(row.id), row.name, row.gender, row.age, row.enrollment,
           row.midterm, row.final, row.gpa)
  }

  /** The counter the roster starts from: the last row's id read as an integer. */
  function LastId(records: seq<Record>): (r: Result<int>)
    ensures r.Ok? <==> records != [] && ParseInt(records[|records| - 1].id).Some?
    ensures r.Ok? ==> r.value == ParseInt(records[|records| - 1].id).value
    ensures records == [] ==> r == Err(EmptyRoster)
  {
    if records == [] then Err(EmptyRoster)
    else match ParseInt(records[|records| - 1].id)
      case None => Err(MalformedId)
      case Some(n) => Ok(n)
  }

  /** Every row normalised, in table order. */
  function NormaliseAll(rows: seq<Row>): (rs: seq<Record>)
    requires forall i :: 0 <= i < |rows| ==> ValidDate(rows[i].enrollment)
    ensures |rs| == |rows|
    ensures forall i :: 0 <= i < |rows| ==> rs[i] == Normalise(rows[i])
  {
    seq(|rows|, i requires 0 <= i < |rows| => Normalise(rows[i]))
  }

  predicate AllDatesValid(rows: seq<Row>) {
    forall i :: 0 <= i < |rows| ==> ValidDate(rows[i].enrollment)
  }

  /**
    Builds the roster from the table's rows: every date must be a real date,
    ids are zero-padded, and the counter comes from the last row.
   */
  function Load(rows: seq<Row>): (r: Result<Loaded>)
    ensures r == Err(MalformedDate) <==> !AllDatesValid(rows)
    ensures r == Err(EmptyRoster) <==> rows == []
    ensures r.Ok? || r == Err(MalformedDate) || r == Err(EmptyRoster)
    ensures r.Ok? ==> |r.value.records| == |rows| && r.value.lastId == rows[|rows| - 1].id
    ensures r.Ok? ==> AllDatesValid(rows) && r.value.records == NormaliseAll(rows)
    ensures r.Ok? ==> LastId(r.value.records) == Ok(r.value.lastId)
  {
    if !AllDatesValid(rows) then Err(MalformedDate)
    else if rows == [] then Err(EmptyRoster)
    else
      var records := NormaliseAll(rows);
      assert ParseInt(records[|rows| - 1].id) == Some(rows[|rows| - 1].id);
      Ok(Loaded(records, LastId(records).value))
  }

  // ------------------------------------------------------------- the counter

  /** The identifier the next added student receives. */
  function NextId(lastId: int): (id: string)
    ensures ParseInt(id) == Some(lastId + 1)
  {
    ZeroPad(lastId + 1)
  }

  /** The counter is at least every id present, so the next id is new. */
  ghost predicate CounterAhead(records: seq<Record>, lastId: int) {
    forall i :: 0 <= i < |records| && ParseInt(records[i].id).Some? ==>
      ParseInt(records[i].id).value <= lastId
  }

  /** While the counter is ahead of every id, the next id is not in use. */
  lemma NextIdIsFresh(records: seq<Record>, lastId: int)
    requires CounterAhead(records, lastId)
    ensures forall i :: 0 <= i < |records| ==> records[i].id != NextId(lastId)
  {
    forall i | 0 <= i < |records|
      ensures records[i].id != NextId(lastId)
    {
    }
  }

  /** Appending the record with the next id and advancing the counter keeps it ahead. */
  lemma AddKeepsCounterAhead(records: seq<Record>, lastId: int, r: Record)
    requires CounterAhead(records, lastId)
    requires r.id == NextId(lastId)
    ensures CounterAhead(records + [r], lastId + 1)
  {
    var s := records + [r];
    forall i | 0 <= i < |s| && ParseInt(s[i].id).Some?
      ensures ParseInt(s[i].id).value <= lastId + 1
    {
      if i < |records| {
        assert s[i] == records[i];
      }
    }
  }

  /** Reordering the records keeps the counter ahead. */
  lemma ReorderKeepsCounterAhead(records: seq<Record>, reordered: seq<Record>, lastId: int)
    requires CounterAhead(records, lastId)
    requires multiset(reordered) == multiset(records)
    ensures CounterAhead(reordered, lastId)
  {
    forall i | 0 <= i < |reordered| && ParseInt(reordered[i].id).Some?
      ensures ParseInt(reordered[i].id).value <= lastId
    {
      assert reordered[i] in multiset(records);
    }
  }

  /**
    The counter starts ahead of every id exactly when the last row of the
    table holds the largest id.
   */
  lemma LoadCounterAhead(rows: seq<Row>)
    requires Load(rows).Ok?
    ensures CounterAhead(Load(rows).value.records, Load(rows).value.lastId) <==>
      forall i :: 0 <= i < |rows| ==> rows[i].id <= rows[|rows| - 1].id
  {
    var l := Load(rows).value;
    if CounterAhead(l.records, l.lastId) {
      forall i | 0 <= i < |rows|
        ensures rows[i].id <= rows[|rows| - 1].id
      {
        assert ParseInt(l.records[i].id) == Some(rows[i].id);
      }
    }
  }

  /**
    A table whose last row does not hold the largest id makes the next id a
    duplicate: with ids 1, 3, 2 the counter starts at 2 and the next student
    is given "003", which the second row already has.
   */
  lemma LastRowNotLargestReusesId(a: Row, b: Row, c: Row)
    requires ValidDate(a.enrollment) && ValidDate(b.enrollment) && ValidDate(c.enrollment)
    requires a.id == 1 && b.id == 3 && c.id == 2
    ensures Load([a, b, c]).Ok?
    ensures Load([a, b, c]).value.lastId == 2
    ensures NextId(Load([a, b, c]).value.lastId) == Load([a, b, c]).value.records[1].id
  {
  }

  // ---------------------------------------------------------------- update

  function Pick<T>(change: Option<T>, current: T): T {
    match change
    case Some(v) => v
    case None => current
  }

  /** A record with the named fields overwritten; the GPA is not recomputed. */
  function Apply(r: Record, c: Changes): (u: Record)
    ensures u.id == r.id
    ensures c.gpa.None? ==> u.gpa == r.gpa
  {
    Record(r.id, Pick(c.name, r.name), Pick(c.gender, r.gender), Pick(c.age, r.age),
           Pick(c.enrollment, r.enrollment), Pick(c.midterm, r.midterm),
           Pick(c.final, r.final), Pick(c.gpa, r.gpa))
  }

  /** Two updates in a row: the later value wins for every field both name. */
  function Merge(first: Changes, second: Changes): Changes {
    Changes(if second.name.Some? then second.name else first.name,
            if second.gender.Some? then second.gender else first.gender,
            if second.age.Some? then second.age else first.age,
            if second.enrollment.Some? then second.enrollment else first.enrollment,
            if second.midterm.Some? then second.midterm else first.midterm,
            if second.final.Some? then second.final else first.final,
            if second.gpa.Some? then second.gpa else first.gpa)
  }

  lemma ApplyNoChanges(r: Record)
    ensures Apply(r, NoChanges) == r
  {
  }

  lemma ApplyMerge(r: Record, first: Changes, second: Changes)
    ensures Apply(Apply(r, first), second) == Apply(r, Merge(first, second))
  {
  }

  /** Every record whose id is `id` gets the changes; all others stay as they are. */
  function UpdateMatching(rs: seq<Record>, id: string, c: Changes): (u: seq<Record>)
    ensures |u| == |rs|
    ensures forall i :: 0 <= i < |rs| ==> u[i] == if rs[i].id == id then Apply(rs[i], c) else rs[i]
  {
    if rs == [] then []
    else [if rs[0].id == id then Apply(rs[0], c) else rs[0]] + UpdateMatching(rs[1..], id, c)
  }

  /** An update keeps every id, so it changes nothing about which records match. */
  lemma UpdateKeepsIds(rs: seq<Record>, id: string, c: Changes)
    ensures forall i :: 0 <= i < |rs| ==> UpdateMatching(rs, id, c)[i].id == rs[i].id
  {
  }

  /** An update keeps the counter ahead, since it keeps every id. */
  lemma UpdateKeepsCounterAhead(rs: seq<Record>, lastId: int, id: string, c: Changes)
    requires CounterAhead(rs, lastId)
    ensures CounterAhead(UpdateMatching(rs, id, c), lastId)
  {
    var u := UpdateMatching(rs, id, c);
    forall i | 0 <= i < |u| && ParseInt(u[i].id).Some?
      ensures ParseInt(u[i].id).value <= lastId
    {
      assert u[i].id == rs[i].id;
    }
  }

  /** An update of an id nobody has leaves the roster as it is. */
  lemma UpdateNoMatch(rs: seq<Record>, id: string, c: Changes)
    requires forall i :: 0 <= i < |rs| ==> rs[i].id != id
    ensures UpdateMatching(rs, id, c) == rs
  {
  }

  /** Two updates of the same id are one update with the changes merged. */
  lemma UpdateTwice(rs: seq<Record>, id: string, first: Changes, second: Changes)
    ensures UpdateMatching(UpdateMatching(rs, id, first), id, second) ==
            UpdateMatching(rs, id, Merge(first, second))
  {
    var u := UpdateMatching(UpdateMatching(rs, id, first), id, second);
    var v := UpdateMatching(rs, id, Merge(first, second));
    forall i | 0 <= i < |rs|
      ensures u[i] == v[i]
    {
      if rs[i].id == id {
        ApplyMerge(rs[i], first, second);
      }
    }
  }

  /** Repeating an update changes nothing more. */
  lemma UpdateIdempotent(rs: seq<Record>, id: string, c: Changes)
    ensures UpdateMatching(UpdateMatching(rs, id, c), id, c) == UpdateMatching(rs, id, c)
  {
    UpdateTwice(rs, id, c, c);
    assert Merge(c, c) == c;
  }

  /**
    Changing a score leaves the stored GPA stale: after an update of the
    midterm score alone, a record whose GPA was current no longer has it
    current unless the score did not move.
   */
  lemma UpdateScoreLeavesGpaStale(r: Record, midterm: real)
    requires GpaCurrent(r)
    ensures var u := Apply(r, NoChanges.(midterm := Some(midterm)));
      u.gpa == r.gpa && (GpaCurrent(u) <==> midterm == r.midterm)
  {
  }

  // ---------------------------------------------------------- recomputation

  /** A record with its GPA recomputed from its scores and every other field kept. */
  function WithCurrentGpa(r: Record): (u: Record)
    ensures GpaCurrent(u)
    ensures u.(gpa := r.gpa) == r
  {
    r.(gpa := Gpa(r.midterm, r.final))
  }

  /** Every record with its GPA recomputed, in the same order. */
  function WithCurrentGpas(rs: seq<Record>): (u: seq<Record>)
    ensures |u| == |rs|
    ensures forall i :: 0 <= i < |rs| ==> u[i] == WithCurrentGpa(rs[i])
  {
    if rs == [] then [] else [WithCurrentGpa(rs[0])] + WithCurrentGpas(rs[1..])
  }

  /** After recomputation every stored GPA is current, and recomputing again changes nothing. */
  lemma WithCurrentGpasCurrent(rs: seq<Record>)
    ensures forall i :: 0 <= i < |rs| ==> GpaCurrent(WithCurrentGpas(rs)[i])
    ensures WithCurrentGpas(WithCurrentGpas(rs)) == WithCurrentGpas(rs)
  {
  }

  // ------------------------------------------------------------- ordering

  /** Non-increasing by GPA, as a listing sorted by GPA in descending order is. */
  ghost predicate SortedByGpa(rs: seq<Record>) {
    forall i, j :: 0 <= i < j < |rs| ==> rs[i].gpa >= rs[j].gpa
  }

  /** The first record of a sorted reordering has the highest GPA of all the records. */
  lemma SortedHeadIsBest(sorted: seq<Record>, rs: seq<Record>)
    requires SortedByGpa(sorted) && multiset(sorted) == multiset(rs) && rs != []
    ensures sorted != [] && forall i :: 0 <= i < |rs| ==> rs[i].gpa <= sorted[0].gpa
  {
    assert |sorted| == |multiset(sorted)| == |multiset(rs)| == |rs|;
    forall i | 0 <= i < |rs|
      ensures rs[i].gpa <= sorted[0].gpa
    {
      assert rs[i] in multiset(rs);
      assert rs[i] in multiset(sorted);
      var k :| 0 <= k < |sorted| && sorted[k] == rs[i];
    }
  }

  /** A record whose GPA is strictly the highest heads every sorted reordering. */
  lemma SortedHeadIsUniqueBest(sorted: seq<Record>, rs: seq<Record>, k: int)
    requires SortedByGpa(sorted) && multiset(sorted) == multiset(rs)
    requires 0 <= k < |rs| && forall i :: 0 <= i < |rs| && i != k ==> rs[i].gpa < rs[k].gpa
    ensures sorted != [] && sorted[0] == rs[k]
  {
    SortedHeadIsBest(sorted, rs);
    assert sorted[0] in multiset(rs);
    var j :| 0 <= j < |rs| && rs[j] == sorted[0];
    assert rs[k].gpa <= rs[j].gpa;
  }

  /** Taking one record out of a sorted listing leaves it sorted. */
  lemma RemoveFromSorted(s: seq<Record>, k: int)
    requires SortedByGpa(s) && 0 <= k < |s|
    ensures SortedByGpa(s[..k] + s[k + 1..])
    ensures multiset(s[..k] + s[k + 1..]) == multiset(s) - multiset{s[k]}
  {
    var s' := s[..k] + s[k + 1..];
    assert s == s[..k] + [s[k]] + s[k + 1..];
    forall i, j | 0 <= i < j < |s'|
      ensures s'[i].gpa >= s'[j].gpa
    {
      var i' := if i < k then i else i + 1;
      var j' := if j < k then j else j + 1;
      assert s'[i] == s[i'] && s'[j] == s[j'] && i' < j';
    }
  }

  /**
    Any two sorted reorderings of the same records list the same GPAs in the
    same order, whichever way ties between equal GPAs were broken.
   */
  lemma {:induction false} SortedGpasUnique(s: seq<Record>, t: seq<Record>)
    requires SortedByGpa(s) && SortedByGpa(t) && multiset(s) == multiset(t)
    ensures |s| == |t|
    ensures forall i :: 0 <= i < |s| ==> s[i].gpa == t[i].gpa
    decreases |s|
  {
    assert |s| == |multiset(s)| == |multiset(t)| == |t|;
    if s != [] {
      // t[0] has the top GPA, and so does s[0]; find t[0] in s.
      assert t[0] in s && s[0].gpa == t[0].gpa by {
        SortedHeadIsBest(s, t);
        SortedHeadIsBest(t, s);
        assert t[0] in multiset(t);
      }
      var k :| 0 <= k < |s| && s[k] == t[0];
      // Take it out of both and recurse on the rest.
      var s', t' := s[..k] + s[k + 1..], t[1..];
      assert SortedByGpa(s') && multiset(s') == multiset(s) - multiset{t[0]} by {
        RemoveFromSorted(s, k);
      }
      assert multiset(t') == multiset(t) - multiset{t[0]} by {
        assert t == [t[0]] + t';
      }
      SortedGpasUnique(s', t');
      TopRunShift(s, t, k, s', t');
    }
  }

  /**
    The inductive step of SortedGpasUnique: when `s[k]` is `t`'s first
    record, every record of `s` before it has the top GPA, so taking it out
    of `s` shifts no GPA.
   */
  lemma TopRunShift(s: seq<Record>, t: seq<Record>, k: int, s': seq<Record>, t': seq<Record>)
    requires SortedByGpa(s) && 0 <= k < |s| == |t|
    requires s' == s[..k] + s[k + 1..] && t' == t[1..]
    requires s[k] == t[0] && s[0].gpa == t[0].gpa
    requires |s'| == |t'| && forall i :: 0 <= i < |s'| ==> s'[i].gpa == t'[i].gpa
    ensures forall i :: 0 <= i < |s| ==> s[i].gpa == t[i].gpa
  {
    forall i | 0 <= i < |s|
      ensures s[i].gpa == t[i].gpa
    {
      if 0 < i <= k {
        assert s'[i - 1] == s[i - 1];
        assert s[i - 1].gpa <= s[0].gpa;
        assert s[k].gpa <= s[i].gpa <= s[i - 1].gpa;
        assert t'[i - 1] == t[i];
      } else if i > k {
        assert s'[i - 1] == s[i];
        assert t'[i - 1] == t[i];
      }
    }
  }

  // --------------------------------------------------------------- lookup

  /** `i` is the position of the first record with the given id. */
  predicate FirstMatch(rs: seq<Record>, id: string, i: int) {
    0 <= i < |rs| && rs[i].id == id && forall j :: 0 <= j < i ==> rs[j].id != id
  }

  /** The position of the first record with the given id, if any. */
  function FindFirst(rs: seq<Record>, id: string): (r: Option<nat>)
    ensures r.Some? ==> r.value < |rs| && rs[r.value].id == id
    ensures r.Some? ==> forall j :: 0 <= j < r.value ==> rs[j].id != id
    ensures r.None? ==> forall j :: 0 <= j < |rs| ==> rs[j].id != id
  {
    if rs == [] then None
    else if rs[0].id == id then Some(0)
    else match FindFirst(rs[1..], id)
      case None => None
      case Some(k) => Some(k + 1)
  }
}
