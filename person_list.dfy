/** `CorrectPersonList`: turns raw `RecPerson` rows into validated `Person`
    objects, keeping the rows whose seven fields all pass and skipping the ones
    whose `SetFields` throws. */
module PersonList {
  import opened Wrappers
  import opened Text
  import opened Seqs
  import opened Persons
  import Dates

  /** `(item.Gend == "F") ? Gender.F : Gender.M`. */
  function GenderOfCode(code: string): (r: Gender)
    ensures r == F <==> code == "F"
  {
    if code == "F" then F else M
  }

  /** The arguments `GetListPerson` passes to `SetFields` for one row. */
  function RowArgs(row: RecPerson): PersonState {
    PersonState(Some(row.firstName), Some(row.surName), Some(GenderOfCode(row.gend)), Some(row.country),
              Some(row.postCode), row.age, Some(row.dateBr))
  }

  /** The five checked fields of a row all pass on a fresh `Person`, whose
      post code is `null` (gender and country are not checked). */
  predicate RowValid(row: RecPerson) {
    FieldsValid(None, RowArgs(row))
  }

  /** The person a valid row becomes: the surname trimmed, the gender code
      mapped, every other value as given. */
  function Accept(row: RecPerson): PersonData {
    PersonData(row.firstName, Trim(row.surName), GenderOfCode(row.gend), row.country, row.postCode, row.age, row.dateBr)
  }

  /** One iteration of the loop in `GetListPerson`: a fresh `Person`, then
      `SetFields`; the person is kept only when no setter threw. */
  function Convert(row: RecPerson): (r: Option<PersonData>)
    ensures r == if RowValid(row) then Some(Accept(row)) else None
  {
    var applied := ApplyFields(EmptyState, RowArgs(row));
    SetFieldsSucceedsIff(EmptyState, RowArgs(row));
    if applied.outcome.Pass? then Some(ToData(applied.state)) else None
  }

  /** The persons an iteration adds to the list: its person, or none. */
  function Kept(o: Option<PersonData>): seq<PersonData> {
    match o
    case Some(p) => [p]
    case None => []
  }

  /** The list `GetListPerson` returns, as values. */
  function BuildList(rows: seq<RecPerson>): (r: seq<PersonData>)
    ensures |r| <= |rows|
  {
    if rows == [] then []
    else
      Kept(Convert(rows[0])) + BuildList(rows[1..])
  }

  /** The list holds exactly the valid rows, in input order, each turned into
      its person. */
  lemma {:induction false} BuildListKeepsValidRows(rows: seq<RecPerson>)
    ensures BuildList(rows) == Select(Where(rows, RowValid), Accept)
  {
    if rows != [] {
      BuildListKeepsValidRows(rows[1..]);
    }
  }

  /** Rows are handled one at a time: a bad row never affects the rows after
      it, so building a concatenation is concatenating the builds. */
  lemma {:induction false} BuildListAppend(a: seq<RecPerson>, b: seq<RecPerson>)
    ensures BuildList(a + b) == BuildList(a) + BuildList(b)
  {
    if a == [] {
      assert a + b == b;
    } else {
      assert (a + b)[0] == a[0] && (a + b)[1..] == a[1..] + b;
      BuildListAppend(a[1..], b);
    }
  }

  /** What `SetFields` leaves on a fresh person is what `Convert` keeps. */
  lemma ConvertIsSetFields(row: RecPerson, r: Outcome<ValidationError>, st: PersonState)
    requires Applied(r, st) == ApplyFields(EmptyState, RowArgs(row))
    ensures r.Pass? ==> IsComplete(st) && Convert(row) == Some(ToData(st))
    ensures r.Fail? ==> Convert(row) == None
  {
    SetFieldsSucceedsIff(EmptyState, RowArgs(row));
  }

  /** The list built from one more row gains that row's person, if any. */
  lemma ConvertStep(rows: seq<RecPerson>, i: nat)
    requires i < |rows|
    ensures BuildList(rows[..i + 1]) == BuildList(rows[..i]) + Kept(Convert(rows[i]))
  {
    assert rows[..i + 1] == rows[..i] + [rows[i]];
    BuildListAppend(rows[..i], [rows[i]]);
  }

  /** `new RecPerson(...)` on the seven arguments held in `x`, before any check. */
  function NewRecord(x: RecPerson): Result<RecPerson, ValidationError> {
    NewRecPerson(x.firstName, x.surName, x.gend, x.country, x.postCode, x.age, x.dateBr)
  }

  /** Evaluating the collection initialiser: each record in order; the first
      one whose initialiser throws aborts the whole list with its error. */
  function MakeRecords(raw: seq<RecPerson>): (r: Result<seq<RecPerson>, ValidationError>)
    ensures r.Success? <==> forall i :: 0 <= i < |raw| ==> NewRecord(raw[i]).Success?
    ensures r.Success? ==> |r.value| == |raw|
                           && forall i :: 0 <= i < |raw| ==> r.value[i] == NewRecord(raw[i]).value
  {
    if raw == [] then Success([])
    else
      match NewRecord(raw[0])
      case Failure(e) => Failure(e)
      case Success(rec) =>
        assert forall i :: 1 <= i < |raw| ==> raw[i] == raw[1..][i - 1];
        match MakeRecords(raw[1..])
        case Failure(e) => Failure(e)
        case Success(rest) => Success([rec] + rest)
  }

  /** A failed initialiser reports the error of the first record that threw. */
  lemma {:induction false} MakeRecordsFirstError(raw: seq<RecPerson>)
    ensures var r := MakeRecords(raw);
            r.Failure? ==> exists k :: 0 <= k < |raw| && NewRecord(raw[k]) == Failure(r.error)
                                     && forall j :: 0 <= j < k ==> NewRecord(raw[j]).Success?
  {
    if raw != [] && NewRecord(raw[0]).Success? && MakeRecords(raw[1..]).Failure? {
      MakeRecordsFirstError(raw[1..]);
      var e := MakeRecords(raw[1..]).error;
      var k :| 0 <= k < |raw[1..]| && NewRecord(raw[1..][k]) == Failure(e)
               && forall j :: 0 <= j < k ==> NewRecord(raw[1..][j]).Success?;
      assert NewRecord(raw[k + 1]) == Failure(e);
      assert forall j :: 0 < j < k + 1 ==> raw[j] == raw[1..][j - 1];
    }
  }

  /** The 23 sample rows, as written. */
  const SampleRows: seq<RecPerson> := [
    RecPerson("Irena ", "Szewinska", "F", "Poland", "00-432", 60, "1965-12-11"),
    RecPerson(" Ewa", "  Swoboda", "F", "Poland", "15-432", 25, "2000-07-08"),
    RecPerson(" Iga", "  Swiatek", "F", "Poland", "00-432", 31, "1994-48-01"),
    RecPerson("Serena", "  Wiliams", "F", "USA", "21-432", 44, "1981-01-14"),
    RecPerson("  Mark", "    Twain", "M", "USA", "00-432", 120, "1905-03-24"),
    RecPerson("   Tom", "   Pid7ck", "M", "GB", "22-432y", 27, "2000-12-01"),
    RecPerson("Marita", "     Koch", "F", "Germany", "32-471", 45, "20FR-07-09"),
    RecPerson("Thomas", "   Ceccon", "M", "Italy", "WN-432", 29, "1996-05-05"),
    RecPerson("Javier", "Sotomayor", "M", "Cuba", "74-832", 42, "1983-07-04"),
    RecPerson("Zhang ", "   Lin   ", "M", "China", "32-471", 33, "1992-11-15"),
    RecPerson("Michael", "Schumacher", "M", "Germany", "63-556", 56, "1969-01-03"),
    RecPerson("Martin", "Schmitt", "M", "Germany", "32-471", 47, "1978-07-09"),
    RecPerson("Steffi", "Graf", "F", "Germany", "32-471", 56, "1969-06-14"),
    RecPerson("Boris", " Becker", "M", "Germany", "32-471", 58, "1967-11-22"),
    RecPerson("Erik ", " Zabel", "M", "Germany", "32-471", 55, "1970-07-07"),
    RecPerson("Jan", "Ullrich", "M", "Germany", "32-471", 52, "1973-12-02"),
    RecPerson("Magda", " Neuner", "F", "Germany", "32-471", 38, "1987-02-09"),
    RecPerson("Thibaut", " Pinot", "M", "France", "05-332", 35, "1990-05-29"),
    RecPerson("Julian", "Alaphilippe", "M", "France", "05-332", 32, "1992-06-11"),
    RecPerson("Romain", "Bardet", "M", "France", "05-332", 35, "1990-11-09"),
    RecPerson("Brigitte", "Bardot", "F", "France", "05-332", 91, "1934-09-28"),
    RecPerson("Raquel", "Welch", "F", "USA", "05-332", 85, "1940-09-05"),
    RecPerson("Monica", "Belucci", "F", "Italy", "05-332", 61, "1964-09-30")
  ]

  /** Sample rows that are skipped: an age of 120, a surname with a digit. */
  lemma DroppedRowExamples()
    ensures !RowValid(RecPerson("  Mark", "    Twain", "M", "USA", "00-432", 120, "1905-03-24"))
    ensures !RowValid(RecPerson("   Tom", "   Pid7ck", "M", "GB", "22-432y", 27, "2000-12-01"))
  {
    assert IsDigit("   Pid7ck"[6]);
  }

  /** A successful initialiser returns its records unchanged: `new RecPerson`
      stores its seven arguments as given. */
  lemma MakeRecordsKeeps(raw: seq<RecPerson>)
    ensures MakeRecords(raw).Success? ==> MakeRecords(raw).value == raw
  {
    if MakeRecords(raw).Success? {
      var rows := MakeRecords(raw).value;
      forall i | 0 <= i < |raw|
        ensures rows[i] == raw[i]
      {
        assert NewRecord(raw[i]).Success?;
      }
    }
  }

  /** What `GetExampleListPersonR` returns: a flag, a message and the records. */
  datatype RecList = RecList(ok: bool, info: string, rows: seq<RecPerson>)

  /** `GetExampleListPersonR`: the sample records as written, or, when building
      them throws, an empty list flagged as failed (the message returned is still "Ok"). */
  function GetExampleListPersonR(): (r: RecList)
    ensures r.info == "Ok"
    ensures !r.ok ==> r.rows == []
    ensures r.ok ==> r.rows == SampleRows
  {
    MakeRecordsKeeps(SampleRows);
    match MakeRecords(SampleRows)
    case Success(rows) => RecList(true, "Ok", rows)
    case Failure(_) => RecList(false, "Ok", [])
  }

  /** Every person in `ps` holds a value in each field. */
  predicate AllComplete(ps: seq<Person>)
    reads ps
  {
    forall p :: p in ps ==> IsComplete(p.State())
  }

  /** The values of a list of complete `Person` objects. */
  function Snapshot(ps: seq<Person>): (r: seq<PersonData>)
    reads ps
    requires AllComplete(ps)
    ensures |r| == |ps|
  {
    if ps == [] then [] else [ToData(ps[0].State())] + Snapshot(ps[1..])
  }

  lemma {:induction false} SnapshotAppend(ps: seq<Person>, q: Person)
    requires AllComplete(ps) && IsComplete(q.State())
    ensures AllComplete(ps + [q])
    ensures Snapshot(ps + [q]) == Snapshot(ps) + [ToData(q.State())]
  {
    assert forall p :: p in ps + [q] ==> p in ps || p == q;
    if ps != [] {
      assert (ps + [q])[1..] == ps[1..] + [q];
      SnapshotAppend(ps[1..], q);
    }
  }

  /** `ps` holds complete persons whose values are the list built from `rows`. */
  ghost predicate Holds(ps: seq<Person>, rows: seq<RecPerson>)
    reads ps
  {
    AllComplete(ps) && Snapshot(ps) == BuildList(rows)
  }

  class CorrectPersonList {
    var listPersonRec: Option<seq<RecPerson>>
    var listPerson: Option<seq<Person>>
    var personsCount: int

    /** The count is the length of the list, zero while there is none. */
    ghost predicate Valid()
      reads this
    {
      personsCount == if listPerson.Some? then |listPerson.value| else 0
    }

    constructor ()
      ensures Valid() && listPersonRec.None? && listPerson.None? && personsCount == 0
    {
      listPersonRec, listPerson, personsCount := None, None, 0;
    }

    /** `GetListPerson`: one fresh `Person` per row, kept when its `SetFields`
        completes; the kept persons' values are `BuildList(rows)`. */
    method GetListPerson(rows: seq<RecPerson>) returns (list: seq<Person>)
      ensures forall p :: p in list ==> fresh(p)
      ensures Holds(list, rows)
    {
      list := [];
      for i := 0 to |rows|
        invariant forall p :: p in list ==> fresh(p)
        invariant Holds(list, rows[..i])
      {
        ConvertStep(rows, i);
        list := AddRow(list, rows[i]);
      }
      assert rows[..|rows|] == rows;
    }

    /** One iteration of the loop in `GetListPerson`: the person built from
        `row` is appended when it was kept. */
    method AddRow(list: seq<Person>, row: RecPerson) returns (list': seq<Person>)
      requires AllComplete(list)
      ensures AllComplete(list') && Snapshot(list') == Snapshot(list) + Kept(Convert(row))
      ensures forall p :: p in list' ==> p in list || fresh(p)
    {
      var kept, temp := TryPerson(row);
      list' := list;
      if kept {
        SnapshotAppend(list, temp);
        list' := list + [temp];
      }
    }

    /** The `try` block of `GetListPerson` for one row: a fresh `Person` whose
        `SetFields` gets the row's values; `kept` is false when a setter threw. */
    method TryPerson(row: RecPerson) returns (kept: bool, temp: Person)
      ensures fresh(temp)
      ensures kept ==> IsComplete(temp.State())
      ensures Kept(Convert(row)) == if kept then [ToData(temp.State())] else []
    {
      temp := new Person();
      var r := temp.SetFields(Some(row.firstName), Some(row.surName), Some(GenderOfCode(row.gend)),
                              Some(row.country), Some(row.postCode), row.age, Some(row.dateBr));
      ConvertIsSetFields(row, r, temp.State());
      kept := r.Pass?;
    }

    /** The `else` branch of `Start`: for records that built, stores them, the
        list built from them and its length; a failed fetch changes nothing. */
    method Load(rec: RecList)
      requires Valid()
      modifies this
      ensures Valid()
      ensures if rec.ok then
                listPersonRec == Some(rec.rows) && listPerson.Some? && Holds(listPerson.value, rec.rows)
                && (forall p :: p in listPerson.value ==> fresh(p))
              else
                unchanged(this)
    {
      if rec.ok {
        listPersonRec := Some(rec.rows);
        var l := GetListPerson(rec.rows);
        listPerson := Some(l);
        personsCount := |l|;
      }
    }

    /** `Start`: fetches the sample records and loads them. */
    method Start()
      requires Valid()
      modifies this
      ensures Valid()
      ensures var rec := GetExampleListPersonR();
              if rec.ok then
                listPersonRec == Some(rec.rows) && listPerson.Some? && Holds(listPerson.value, rec.rows)
                && (forall p :: p in listPerson.value ==> fresh(p))
              else
                unchanged(this)
    {
      Load(GetExampleListPersonR());
    }

    /** `GetPersonList`: optionally runs `Start`, then reports `ok` exactly when
        the list exists and is not empty, together with the list. */
    method GetPersonList(init: bool) returns (ok: bool, l: Option<seq<Person>>)
      requires Valid()
      modifies this
      ensures Valid()
      ensures l == listPerson
      ensures ok <==> l.Some? && |l.value| > 0
      ensures !init ==> unchanged(this)
      ensures init ==> var rec := GetExampleListPersonR();
                       if rec.ok then
                         listPersonRec == Some(rec.rows) && listPerson.Some? && Holds(listPerson.value, rec.rows)
                       else
                         unchanged(this)
    {
      if init {
        Start();
      }
      ok := false;
      if personsCount > 0 {
        ok := true;
      }
      l := listPerson;
    }
  }
}
