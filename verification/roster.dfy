/**
  The in-memory student roster: an ordered table of records and the counter
  the next student id is derived from. Adding appends, updating overwrites
  fields of the matching rows in place, and recomputing, listing and saving
  reorder the table by GPA, highest first.
 */
module StudentRoster {
  import opened Ids
  import opened Calendar
  import opened Records

  /** Position of a record with the highest GPA in `rs[from..]`. */
  method IndexOfBestGpa(rs: seq<Record>, from: nat) returns (k: nat)
    requires from < |rs|
    ensures from <= k < |rs|
    ensures forall j :: from <= j < |rs| ==> rs[j].gpa <= rs[k].gpa
  {
    k := from;
    var j := from + 1;
    while j < |rs|
      invariant from <= k < j <= |rs|
      invariant forall i :: from <= i < j ==> rs[i].gpa <= rs[k].gpa
    {
      if rs[j].gpa > rs[k].gpa {
        k := j;
      }
      j := j + 1;
    }
  }

  /** The first `i` positions hold the highest GPAs, in order: the selection sort's progress. */
  ghost predicate SortedBelow(rs: seq<Record>, i: int) {
    forall p, q :: 0 <= p < q < |rs| && p < i ==> rs[p].gpa >= rs[q].gpa
  }

  /** Swapping the best of `rs[i..]` into position `i` extends the sorted prefix by one. */
  lemma SelectionStep(rs: seq<Record>, i: int, k: int)
    requires 0 <= i <= k < |rs| && SortedBelow(rs, i)
    requires forall j :: i <= j < |rs| ==> rs[j].gpa <= rs[k].gpa
    ensures SortedBelow(rs[i := rs[k]][k := rs[i]], i + 1)
    ensures multiset(rs[i := rs[k]][k := rs[i]]) == multiset(rs)
  {
    var t := rs[i := rs[k]][k := rs[i]];
    forall p, q | 0 <= p < q < |t| && p < i + 1
      ensures t[p].gpa >= t[q].gpa
    {
      if p < i {
        assert t[p] == rs[p];
        assert q == k ==> t[q] == rs[i];
        assert q != k && q != i ==> t[q] == rs[q];
      } else {
        assert t[p] == rs[k];
        assert q == k ==> t[q] == rs[i];
        assert q != k ==> t[q] == rs[q];
      }
    }
  }

  class Roster {
    var records: seq<Record>
    var lastId: int

    /**
      A roster over an already loaded table: the table is not empty and the
      counter is its last record's id read as an integer (see Records.Load).
     */
    constructor (loaded: Loaded)
      requires LastId(loaded.records) == Ok(loaded.lastId)
      ensures records == loaded.records && lastId == loaded.lastId
    {
      records := loaded.records;
      lastId := loaded.lastId;
    }

    /**
      Opens the roster from the table's rows: fails as loading fails (a date
      that does not exist, or no rows), and otherwise holds the loaded
      records and counter.
     */
    static method Open(rows: seq<Row>) returns (r: Result<Roster>)
      ensures r.Err? <==> Load(rows).Err?
      ensures r.Err? ==> r.error == Load(rows).error
      ensures r.Ok? ==> fresh(r.value)
      ensures r.Ok? ==> r.value.records == Load(rows).value.records
      ensures r.Ok? ==> r.value.lastId == Load(rows).value.lastId
    {
      var loaded := Load(rows);
      if loaded.Err? {
        return Err(loaded.error);
      }
      var roster := new Roster(loaded.value);
      r := Ok(roster);
    }

    /**
      Appends a new student with the next id and a freshly computed GPA and
      advances the counter; a date that does not exist is rejected and
      nothing changes.
     */
    method Add(name: string, gender: int, age: int, enrollment: Date, midterm: real, final: real)
      returns (r: Result<string>)
      modifies this
      ensures !ValidDate(enrollment) ==>
        r == Err(MalformedDate) && records == old(records) && lastId == old(lastId)
      ensures ValidDate(enrollment) ==>
        r == Ok(NextId(old(lastId))) && lastId == old(lastId) + 1 &&
        records == old(records) +
          [Record(NextId(old(lastId)), name, gender, age, enrollment, midterm, final, Gpa(midterm, final))]
    {
      if !ValidDate(enrollment) {
        return Err(MalformedDate);
      }
      var id := ZeroPad(lastId + 1);
      records := records + [Record(id, name, gender, age, enrollment, midterm, final, Gpa(midterm, final))];
      lastId := lastId + 1;
      r := Ok(id);
    }

    /**
      Overwrites the named fields of every record whose id is `id`, in place;
      with no such record nothing changes. The GPA is left as it was.
     */
    method Update(id: string, changes: Changes)
      modifies this
      ensures records == UpdateMatching(old(records), id, changes)
      ensures lastId == old(lastId)
    {
      var i := 0;
      while i < |records|
        invariant 0 <= i <= |records| == |old(records)|
        invariant forall j :: 0 <= j < i ==>
          records[j] == if old(records)[j].id == id then Apply(old(records)[j], changes) else old(records)[j]
        invariant forall j :: i <= j < |records| ==> records[j] == old(records)[j]
        invariant lastId == old(lastId)
      {
        if records[i].id == id {
          records := records[i := Apply(records[i], changes)];
        }
        i := i + 1;
      }
    }

    /** Recomputes every record's GPA from its current scores, in place. */
    method RecomputeGpa()
      modifies this
      ensures records == WithCurrentGpas(old(records))
      ensures lastId == old(lastId)
    {
      var i := 0;
      while i < |records|
        invariant 0 <= i <= |records| == |old(records)|
        invariant forall j :: 0 <= j < i ==> records[j] == WithCurrentGpa(old(records)[j])
        invariant forall j :: i <= j < |records| ==> records[j] == old(records)[j]
        invariant lastId == old(lastId)
      {
        records := records[i := WithCurrentGpa(records[i])];
        i := i + 1;
      }
    }

    /** Reorders the records in place by GPA, highest first; ties in no particular order. */
    method SortByGpa()
      modifies this
      ensures SortedByGpa(records)
      ensures multiset(records) == multiset(old(records))
      ensures lastId == old(lastId)
    {
      var i := 0;
      while i < |records|
        invariant 0 <= i <= |records|
        invariant multiset(records) == multiset(old(records))
        invariant SortedBelow(records, i)
        invariant lastId == old(lastId)
      {
        var k := IndexOfBestGpa(records, i);
        SelectionStep(records, i, k);
        records := records[i := records[k]][k := records[i]];
        i := i + 1;
      }
    }

    /** Sorts the roster by GPA and gives the listing that is printed. */
    method PrintAll() returns (listing: seq<Record>)
      modifies this
      ensures listing == records
      ensures SortedByGpa(records)
      ensures multiset(records) == multiset(old(records))
      ensures lastId == old(lastId)
    {
      SortByGpa();
      listing := records;
    }

    /** Sorts the roster by GPA and gives the rows that are written to the file. */
    method SaveToDisk() returns (written: seq<Record>)
      modifies this
      ensures written == records
      ensures SortedByGpa(records)
      ensures multiset(records) == multiset(old(records))
      ensures lastId == old(lastId)
    {
      SortByGpa();
      written := records;
    }

    /**
      Recomputes every GPA and then prints the roster, which sorts it: the
      records afterwards are the recomputed ones, highest GPA first.
     */
    method CalculateGpa() returns (listing: seq<Record>)
      modifies this
      ensures listing == records
      ensures SortedByGpa(records)
      ensures multiset(records) == multiset(WithCurrentGpas(old(records)))
      ensures forall i :: 0 <= i < |records| ==> GpaCurrent(records[i])
      ensures lastId == old(lastId)
    {
      RecomputeGpa();
      ghost var recomputed := records;
      listing := PrintAll();
      forall i | 0 <= i < |records|
        ensures GpaCurrent(records[i])
      {
        assert records[i] in multiset(recomputed);
      }
    }

    /**
      The graduation date of the first student with the given id, `years`
      years and `months` months after enrollment; an unknown id is an error.
      The roster is only read.
     */
    method CalculateGradDate(id: string, years: int, months: int) returns (r: Result<CalendarDate>)
      ensures r.Err? <==> forall j :: 0 <= j < |records| ==> records[j].id != id
      ensures r.Err? ==> r.error == NotFound
      ensures r.Ok? ==>
        exists i :: FirstMatch(records, id, i) && r.value == ShiftMonths(records[i].enrollment, 12 * years + months)
    {
      match FindFirst(records, id)
      case None =>
        r := Err(NotFound);
      case Some(i) =>
        AddRelativeIsShift(records[i].enrollment, years, months);
        r := Ok(AddRelative(records[i].enrollment, years, months));
    }
  }

  /**
    A client of the roster: three students are on file, a fourth is added,
    GPAs are recomputed (which sorts the roster) and the new student's
    graduation date four years on is projected.
   */
  method Scenario() {
    var bo := Record("001", "Bo", 0, 21, Date(2020, 9, 1), 70.0, 60.0, 60.0);
    var cy := Record("002", "Cy", 1, 22, Date(2020, 9, 1), 50.0, 80.0, 68.0);
    var di := Record("003", "Di", 1, 20, Date(2019, 9, 1), 60.0, 60.0, 60.0);
    assert ParseInt(di.id) == Some(3) by {
      ZeroPadExamples();
      assert di.id == ZeroPad(3);
    }
    var roster := new Roster(Loaded([bo, cy, di], 3));
    var added := roster.Add("Ann", 1, 20, Date(2021, 9, 1), 90.0, 80.0);
    assert added == Ok("004") by {
      ZeroPadExamples();
    }
    var ann := Record("004", "Ann", 1, 20, Date(2021, 9, 1), 90.0, 80.0, 84.0);
    assert roster.records == [bo, cy, di, ann];

    var listing := roster.CalculateGpa();
    ghost var recomputed := WithCurrentGpas([bo, cy, di, ann]);
    assert recomputed[0].gpa == 64.0 && recomputed[1] == cy && recomputed[2] == di && recomputed[3] == ann;
    SortedHeadIsUniqueBest(listing, recomputed, 3);
    assert listing[0] == ann;

    var grad := roster.CalculateGradDate("004", 4, 0);
    assert roster.records[0].id == "004";
    assert grad.Ok?;
    ghost var i :| FirstMatch(roster.records, "004", i) &&
      grad.value == ShiftMonths(roster.records[i].enrollment, 12 * 4 + 0);
    assert i == 0;
    GraduationExamples();
    AddRelativeIsShift(Date(2021, 9, 1), 4, 0);
    assert grad.value == Date(2025, 9, 1);
  }
}
