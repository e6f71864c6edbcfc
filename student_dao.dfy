/**
 The data-access object for students, over the students table seen as a
 map from the primary key roll_number to the other five columns. Adding
 checks with a count and then inserts; each other method carries out the
 meaning of its one SQL statement on that map.
 */
module StudentDao {
  import opened JavaLang
  import opened StudentModel
  import opened SqlLike

  /** The non-key columns of one row of the students table. */
  datatype Row = Row(name: JString, email: JString, phone: JString, course: JString, marks: real)

  /** A row with its roll_number, the six columns a query hands back. */
  datatype Record = Record(
    rollNumber: string,
    name: JString,
    email: JString,
    phone: JString,
    course: JString,
    marks: real)

  /** The five non-key columns of a result row. */
  function RowOfRecord(rec: Record): Row {
    Row(rec.name, rec.email, rec.phone, rec.course, rec.marks)
  }

  /**
   extractStudentFromResultSet, timestamps aside: the fields of the Student
   built from a result row.
   */
  function FieldsOf(rec: Record): Fields {
    Fields(Some(rec.rollNumber), rec.name, rec.email, rec.phone, rec.course, rec.marks, None, None)
  }

  /** The result row a query hands back for the row stored under key k. */
  function RecordOf(k: string, r: Row): (rec: Record)
    ensures rec.rollNumber == k && RowOfRecord(rec) == r
  {
    Record(k, r.name, r.email, r.phone, r.course, r.marks)
  }

  /**
   The non-key columns a Student object binds into INSERT or UPDATE. Read
   back under the student's roll number, they give the student's fields
   again, with the timestamps the application does not write left unset.
   */
  function RowOf(s: Student): (r: Row)
    reads s
    ensures s.rollNumber.Some? ==>
      FieldsOf(RecordOf(s.rollNumber.value, r)) == s.Snapshot().(createdAt := None, updatedAt := None)
  {
    Row(s.name, s.email, s.phone, s.course, s.marks)
  }

  /**
   The LIKE argument "%" + name + "%"; Java concatenates a null name as
   "null". For a name without wildcards or escapes, and for null, the
   pattern matches exactly the strings containing that text.
   */
  function SearchPattern(name: JString): (p: string)
    ensures name.None? || IsLiteralText(name.value) ==>
      forall s :: Like(s, p) <==> Contains(s, if name.None? then "null" else name.value)
  {
    var q := if name.None? then "null" else name.value;
    assert IsLiteralText("null") by {
      assert forall i :: 0 <= i < 4 ==> "null"[i] in {'n', 'u', 'l'};
    }
    SearchPatternMatchesContaining(q);
    "%" + q + "%"
  }

  /**
   WHERE name LIKE ?: a NULL name never matches; a non-null name is matched
   by LIKE, so a pattern without wildcards or escapes matches only the
   equal name.
   */
  predicate NameMatches(r: Row, pattern: string)
    ensures r.name.None? ==> !NameMatches(r, pattern)
    ensures r.name.Some? && IsLiteralText(pattern) ==> (NameMatches(r, pattern) <==> r.name.value == pattern)
  {
    r.name.Some? && Like(r.name.value, pattern)
  }

  // ---------------------------------------------------------------------
  // SELECT * FROM students ORDER BY roll_number
  // ---------------------------------------------------------------------

  /**
   rs is the table listed by roll number: every element is a stored row,
   every stored row appears, and the roll numbers strictly ascend (so no
   row appears twice).
   */
  ghost predicate IsOrderedListing(rs: seq<Record>, table: map<string, Row>) {
    && (forall i :: 0 <= i < |rs| ==>
          rs[i].rollNumber in table && rs[i] == RecordOf(rs[i].rollNumber, table[rs[i].rollNumber]))
    && (forall k :: k in table ==> exists i :: 0 <= i < |rs| && rs[i].rollNumber == k)
    && (forall i, j :: 0 <= i < j < |rs| ==> StrLess(rs[i].rollNumber, rs[j].rollNumber))
  }

  /** k sorts before every other key in ks. */
  predicate IsLeast(k: string, ks: set<string>) {
    forall j :: j in ks && j != k ==> StrLess(k, j)
  }

  /** A non-empty set of roll numbers has a least element. */
  lemma {:induction false} LeastKeyExists(ks: set<string>)
    requires ks != {}
    ensures exists k :: k in ks && IsLeast(k, ks)
    decreases |ks|
  {
    var x :| x in ks;
    if ks != {x} {
      var rest := ks - {x};
      LeastKeyExists(rest);
      var m :| m in rest && IsLeast(m, rest);
      StrLessTotal(x, m);
      if StrLess(x, m) {
        forall j | j in ks && j != x ensures StrLess(x, j) {
          if j != m {
            StrLessTransitive(x, m, j);
          }
        }
        assert IsLeast(x, ks);
      } else {
        assert IsLeast(m, ks);
      }
    } else {
      assert IsLeast(x, ks);
    }
  }

  /** Dropping the first element lists the table without that row. */
  lemma ListingTail(rs: seq<Record>, table: map<string, Row>)
    requires IsOrderedListing(rs, table) && rs != []
    ensures IsOrderedListing(rs[1..], table - {rs[0].rollNumber})
  {
    var k := rs[0].rollNumber;
    var tail := rs[1..];
    var t := table - {k};
    forall i | 0 <= i < |tail|
      ensures tail[i].rollNumber in t && tail[i] == RecordOf(tail[i].rollNumber, t[tail[i].rollNumber])
    {
      assert tail[i] == rs[i + 1];
      assert StrLess(k, rs[i + 1].rollNumber);
    }
    forall m | m in t ensures exists i :: 0 <= i < |tail| && tail[i].rollNumber == m {
      var i :| 0 <= i < |rs| && rs[i].rollNumber == m;
      assert i != 0;
      assert tail[i - 1].rollNumber == m;
    }
    forall i, j | 0 <= i < j < |tail| ensures StrLess(tail[i].rollNumber, tail[j].rollNumber) {
      assert tail[i] == rs[i + 1] && tail[j] == rs[j + 1];
    }
  }

  /** The first record of an ordered listing carries the least key of the table. */
  lemma ListingHeadIsLeast(rs: seq<Record>, table: map<string, Row>)
    requires IsOrderedListing(rs, table) && rs != []
    ensures rs[0].rollNumber in table && IsLeast(rs[0].rollNumber, table.Keys)
  {
    forall m | m in table.Keys && m != rs[0].rollNumber ensures StrLess(rs[0].rollNumber, m) {
      var i :| 0 <= i < |rs| && rs[i].rollNumber == m;
      assert i != 0;
    }
  }

  /** A table has at most one least key. */
  lemma LeastIsUnique(k: string, m: string, ks: set<string>)
    requires k in ks && m in ks && IsLeast(k, ks) && IsLeast(m, ks)
    ensures k == m
  {
    StrLessTotal(k, m);
  }

  /** There is only one ordered listing of a table. */
  lemma {:induction false} OrderedListingUnique(a: seq<Record>, b: seq<Record>, table: map<string, Row>)
    requires IsOrderedListing(a, table) && IsOrderedListing(b, table)
    ensures a == b
    decreases |a|
  {
    if a == [] {
      OrderedListingLength(a, table);
      OrderedListingLength(b, table);
    } else if b == [] {
      OrderedListingLength(a, table);
      OrderedListingLength(b, table);
    } else {
      ListingHeadIsLeast(a, table);
      ListingHeadIsLeast(b, table);
      var k := a[0].rollNumber;
      LeastIsUnique(k, b[0].rollNumber, table.Keys);
      ListingTail(a, table);
      ListingTail(b, table);
      OrderedListingUnique(a[1..], b[1..], table - {k});
      assert a == [a[0]] + a[1..] && b == [b[0]] + b[1..];
    }
  }

  /** An ordered listing holds as many records as the table has rows. */
  lemma {:induction false} OrderedListingLength(rs: seq<Record>, table: map<string, Row>)
    requires IsOrderedListing(rs, table)
    ensures |rs| == |table|
    decreases |rs|
  {
    if rs == [] {
      assert table.Keys == {};
    } else {
      var k := rs[0].rollNumber;
      ListingTail(rs, table);
      OrderedListingLength(rs[1..], table - {k});
      assert (table - {k}).Keys == table.Keys - {k};
    }
  }

  /** Appending a row whose key sorts after every listed key extends the listing. */
  lemma ListingAppend(rs: seq<Record>, table: map<string, Row>, k: string, row: Row)
    requires IsOrderedListing(rs, table) && k !in table
    requires forall i :: 0 <= i < |rs| ==> StrLess(rs[i].rollNumber, k)
    ensures IsOrderedListing(rs + [RecordOf(k, row)], table[k := row])
  {
    var rs' := rs + [RecordOf(k, row)];
    var t := table[k := row];
    forall i | 0 <= i < |rs'|
      ensures rs'[i].rollNumber in t && rs'[i] == RecordOf(rs'[i].rollNumber, t[rs'[i].rollNumber])
    {
      if i < |rs| {
        assert rs'[i] == rs[i];
        StrLessTotal(rs[i].rollNumber, k);
      }
    }
    forall m | m in t ensures exists i :: 0 <= i < |rs'| && rs'[i].rollNumber == m {
      if m == k {
        assert rs'[|rs|].rollNumber == m;
      } else {
        var i :| 0 <= i < |rs| && rs[i].rollNumber == m;
        assert rs'[i].rollNumber == m;
      }
    }
  }

  /**
   One step of the listing loop: the least remaining key goes to the end,
   and the listed keys still sort before every key that remains.
   */
  lemma ListingStep(rs: seq<Record>, listed: map<string, Row>, remaining: set<string>, k: string, row: Row)
    requires IsOrderedListing(rs, listed) && listed.Keys !! remaining
    requires forall i, m :: 0 <= i < |rs| && m in remaining ==> StrLess(rs[i].rollNumber, m)
    requires k in remaining && IsLeast(k, remaining)
    ensures IsOrderedListing(rs + [RecordOf(k, row)], listed[k := row])
    ensures forall i, m :: 0 <= i < |rs| + 1 && m in remaining - {k} ==>
      StrLess((rs + [RecordOf(k, row)])[i].rollNumber, m)
  {
    ListingAppend(rs, listed, k, row);
  }

  /** A table of one row is listed as that row alone. */
  lemma SingletonListing(rs: seq<Record>, k: string, row: Row)
    requires IsOrderedListing(rs, map[k := row])
    ensures rs == [RecordOf(k, row)]
  {
    OrderedListingLength([], map[]);
    ListingAppend([], map[], k, row);
    assert [] + [RecordOf(k, row)] == [RecordOf(k, row)];
    assert map[][k := row] == map[k := row];
    OrderedListingUnique(rs, [RecordOf(k, row)], map[k := row]);
  }

  /**
   SELECT COUNT(*) FROM students WHERE roll_number = ?: the number of rows
   whose key equals the argument; comparing with NULL is never true.
   */
  ghost function RowCount(table: map<string, Row>, rollNumber: JString): nat {
    |set k | k in table && Some(k) == rollNumber|
  }

  /** Since roll_number is the primary key, the count is 1 for a stored key and 0 otherwise. */
  lemma RowCountIsKeyLookup(table: map<string, Row>, rollNumber: JString)
    ensures RowCount(table, rollNumber) == if rollNumber.Some? && rollNumber.value in table then 1 else 0
  {
    var matching := set k | k in table && Some(k) == rollNumber;
    if rollNumber.Some? && rollNumber.value in table {
      assert matching == {rollNumber.value};
    } else {
      assert matching == {};
    }
  }

  /** For a name without wildcards, the search pattern picks the rows whose name contains it. */
  lemma SearchMatchesSubstrings(table: map<string, Row>, q: string)
    requires IsLiteralText(q)
    ensures forall k :: k in table ==>
      (NameMatches(table[k], SearchPattern(Some(q))) <==>
       table[k].name.Some? && Contains(table[k].name.value, q))
  {
    assert SearchPattern(Some(q)) == "%" + q + "%";
    forall k | k in table && table[k].name.Some? {
      SearchPatternIsSubstring(table[k].name.value, q);
    }
  }

  // ---------------------------------------------------------------------
  // The data-access object
  // ---------------------------------------------------------------------

  class StudentDAO {
    /** The students table, keyed by its primary key roll_number. */
    var table: map<string, Row>

    constructor (initial: map<string, Row>)
      ensures table == initial
    {
      table := initial;
    }

    /**
     isRollNumberExists: whether the count of rows with this roll number is
     positive. A null roll number compares as unknown and counts nothing.
     The key is the primary key, so the count is found by one lookup.
     */
    method IsRollNumberExists(rollNumber: JString) returns (found: bool)
      ensures found <==> RowCount(table, rollNumber) > 0
      ensures found <==> rollNumber.Some? && rollNumber.value in table
    {
      var count := if rollNumber.Some? && rollNumber.value in table then 1 else 0;
      RowCountIsKeyLookup(table, rollNumber);
      found := count > 0;
    }

    /**
     addStudent: refused when the roll number is already stored; otherwise
     INSERT of the six columns. An INSERT with a null primary key fails.
     */
    method AddStudent(student: Student) returns (ok: bool)
      modifies this
      ensures ok <==> student.rollNumber.Some? && student.rollNumber.value !in old(table)
      ensures ok ==> table == old(table)[student.rollNumber.value := RowOf(student)]
      ensures ok ==> student.rollNumber.value in table
      ensures !ok ==> table == old(table)
    {
      var found := IsRollNumberExists(student.rollNumber);
      if found {
        return false;
      }
      match student.rollNumber
      case None =>
        ok := false;
      case Some(k) =>
        table := table[k := RowOf(student)];
        ok := true;
    }

    /** getAllStudents: every row, in roll-number order, appended one result row at a time. */
    method GetAllStudents() returns (students: seq<Record>)
      ensures IsOrderedListing(students, table)
      ensures |students| == |table|
    {
      students := [];
      var remaining := table.Keys;
      ghost var listed: map<string, Row> := map[];
      OrderedListingLength([], map[]);
      while remaining != {}
        invariant remaining <= table.Keys
        invariant listed.Keys == table.Keys - remaining
        invariant forall k :: k in listed ==> listed[k] == table[k]
        invariant IsOrderedListing(students, listed)
        invariant forall i, k :: 0 <= i < |students| && k in remaining ==>
          StrLess(students[i].rollNumber, k)
        decreases remaining
      {
        LeastKeyExists(remaining);
        var k :| k in remaining && IsLeast(k, remaining);
        ListingStep(students, listed, remaining, k, table[k]);
        students := students + [RecordOf(k, table[k])];
        listed := listed[k := table[k]];
        remaining := remaining - {k};
      }
      assert listed == table;
      OrderedListingLength(students, table);
    }

    /** getStudentByRollNumber: the row with exactly this key, or null. */
    method GetStudentByRollNumber(rollNumber: JString) returns (student: Option<Record>)
      ensures student.Some? <==> rollNumber.Some? && rollNumber.value in table
      ensures student.Some? ==> student.value == RecordOf(rollNumber.value, table[rollNumber.value])
    {
      if rollNumber.Some? && rollNumber.value in table {
        student := Some(RecordOf(rollNumber.value, table[rollNumber.value]));
      } else {
        student := None;
      }
    }

    /**
     searchStudentsByName: the rows whose name matches "%" + name + "%",
     each once, in no particular order.
     */
    method SearchStudentsByName(name: JString) returns (students: seq<Record>)
      ensures forall i :: 0 <= i < |students| ==>
        && students[i].rollNumber in table
        && students[i] == RecordOf(students[i].rollNumber, table[students[i].rollNumber])
        && NameMatches(table[students[i].rollNumber], SearchPattern(name))
      ensures forall k :: k in table && NameMatches(table[k], SearchPattern(name)) ==>
        exists i :: 0 <= i < |students| && students[i].rollNumber == k
      ensures forall i, j :: 0 <= i < j < |students| ==>
        students[i].rollNumber != students[j].rollNumber
      ensures name.Some? && IsLiteralText(name.value) ==>
        forall k :: k in table ==>
          ((exists i :: 0 <= i < |students| && students[i].rollNumber == k) <==>
           table[k].name.Some? && Contains(table[k].name.value, name.value))
    {
      var pattern := SearchPattern(name);
      students := [];
      var remaining := table.Keys;
      while remaining != {}
        invariant remaining <= table.Keys
        invariant forall i :: 0 <= i < |students| ==>
          && students[i].rollNumber in table && students[i].rollNumber !in remaining
          && students[i] == RecordOf(students[i].rollNumber, table[students[i].rollNumber])
          && NameMatches(table[students[i].rollNumber], pattern)
        invariant forall k :: k in table && k !in remaining && NameMatches(table[k], pattern) ==>
          exists i :: 0 <= i < |students| && students[i].rollNumber == k
        invariant forall i, j :: 0 <= i < j < |students| ==>
          students[i].rollNumber != students[j].rollNumber
        decreases remaining
      {
        var k :| k in remaining;
        var row := table[k];
        ghost var before := students;
        if NameMatches(row, pattern) {
          students := students + [RecordOf(k, row)];
        }
        forall m | m in table && m !in remaining - {k} && NameMatches(table[m], pattern)
          ensures exists i :: 0 <= i < |students| && students[i].rollNumber == m
        {
          if m == k {
            assert students[|before|].rollNumber == m;
          } else {
            var i :| 0 <= i < |before| && before[i].rollNumber == m;
            assert students[i].rollNumber == m;
          }
        }
        remaining := remaining - {k};
      }
      if name.Some? && IsLiteralText(name.value) {
        SearchMatchesSubstrings(table, name.value);
      }
    }

    /**
     updateStudent: UPDATE of the five non-key columns where roll_number
     matches; succeeds exactly when such a row exists.
     */
    method UpdateStudent(student: Student) returns (ok: bool)
      modifies this
      ensures ok <==> student.rollNumber.Some? && student.rollNumber.value in old(table)
      ensures ok ==> table == old(table)[student.rollNumber.value := RowOf(student)]
      ensures !ok ==> table == old(table)
    {
      if student.rollNumber.Some? && student.rollNumber.value in table {
        table := table[student.rollNumber.value := RowOf(student)];
        ok := true;
      } else {
        ok := false;
      }
    }

    /** deleteStudent: DELETE where roll_number matches; succeeds exactly when a row goes. */
    method DeleteStudent(rollNumber: JString) returns (ok: bool)
      modifies this
      ensures ok <==> rollNumber.Some? && rollNumber.value in old(table)
      ensures ok ==> table == old(table) - {rollNumber.value}
      ensures !ok ==> table == old(table)
    {
      if rollNumber.Some? && rollNumber.value in table {
        table := table - {rollNumber.value};
        ok := true;
      } else {
        ok := false;
      }
    }
  }

  /**
   A session on an empty table: a student is added and listed, a second
   add with the same roll number is refused, an update of the marks shows
   in the listing, and after the delete the listing is empty.
   */
  method ExampleSession() returns (added: bool, listedAfterAdd: seq<Record>,
                                   addedAgain: bool, updated: bool, listedAfterUpdate: seq<Record>,
                                   deleted: bool, listedAfterDelete: seq<Record>)
    ensures added && !addedAgain && updated && deleted
    ensures listedAfterAdd == [Record("S1", Some("Ann"), Some("ann@x.com"), Some("1234567890"), Some("CS"), 88.5)]
    ensures listedAfterUpdate == [Record("S1", Some("Ann"), Some("ann@x.com"), Some("1234567890"), Some("CS"), 91.0)]
    ensures listedAfterDelete == []
  {
    var dao := new StudentDAO(map[]);
    var ann := new Student(Some("S1"), Some("Ann"), Some("ann@x.com"), Some("1234567890"), Some("CS"), 88.5);

    var row := Row(Some("Ann"), Some("ann@x.com"), Some("1234567890"), Some("CS"), 88.5);
    added := dao.AddStudent(ann);
    assert dao.table == map["S1" := row];
    listedAfterAdd := dao.GetAllStudents();
    SingletonListing(listedAfterAdd, "S1", row);

    addedAgain := dao.AddStudent(ann);

    var same := ann.SetMarks(91.0);
    assert same == ann;
    updated := dao.UpdateStudent(ann);
    assert dao.table == map["S1" := row.(marks := 91.0)];
    listedAfterUpdate := dao.GetAllStudents();
    SingletonListing(listedAfterUpdate, "S1", row.(marks := 91.0));

    deleted := dao.DeleteStudent(Some("S1"));
    assert dao.table == map[];
    listedAfterDelete := dao.GetAllStudents();
  }
}
