/**
 The student entity: a mutable object with six data fields and two
 timestamps, fluent setters that update one field and return the object,
 a builder, field validators, an ordering by roll number, and equality and
 hashing by roll number alone.
 */
module StudentModel {
  import opened JavaLang
  import opened Validation

  /** java.sql.Timestamp, as milliseconds since the epoch. */
  type Timestamp = int

  /** The values of all eight fields of a Student, taken together. */
  datatype Fields = Fields(
    rollNumber: JString,
    name: JString,
    email: JString,
    phone: JString,
    course: JString,
    marks: real,
    createdAt: Option<Timestamp>,
    updatedAt: Option<Timestamp>)

  class Student {
    var rollNumber: JString
    var name: JString
    var email: JString
    var phone: JString
    var course: JString
    var marks: real
    var createdAt: Option<Timestamp>
    var updatedAt: Option<Timestamp>

    function Snapshot(): Fields
      reads this
    {
      Fields(rollNumber, name, email, phone, course, marks, createdAt, updatedAt)
    }

    /** The no-argument constructor: every reference null, marks 0.0. */
    constructor Empty()
      ensures Snapshot() == Fields(None, None, None, None, None, 0.0, None, None)
    {
      rollNumber, name, email, phone, course := None, None, None, None, None;
      marks := 0.0;
      createdAt, updatedAt := None, None;
    }

    /** The six-argument constructor: the given fields, both timestamps unset. */
    constructor (rollNumber: JString, name: JString, email: JString, phone: JString,
                 course: JString, marks: real)
      ensures Snapshot() == Fields(rollNumber, name, email, phone, course, marks, None, None)
    {
      this.rollNumber, this.name, this.email := rollNumber, name, email;
      this.phone, this.course, this.marks := phone, course, marks;
      createdAt, updatedAt := None, None;
    }

    // -------------------------------------------------------------------
    // Fluent setters: each changes its own field and returns this
    // -------------------------------------------------------------------

    method SetRollNumber(v: JString) returns (self: Student)
      modifies this
      ensures self == this && Snapshot() == old(Snapshot()).(rollNumber := v)
    {
      rollNumber := v;
      self := this;
    }

    method SetName(v: JString) returns (self: Student)
      modifies this
      ensures self == this && Snapshot() == old(Snapshot()).(name := v)
    {
      name := v;
      self := this;
    }

    method SetEmail(v: JString) returns (self: Student)
      modifies this
      ensures self == this && Snapshot() == old(Snapshot()).(email := v)
    {
      email := v;
      self := this;
    }

    method SetPhone(v: JString) returns (self: Student)
      modifies this
      ensures self == this && Snapshot() == old(Snapshot()).(phone := v)
    {
      phone := v;
      self := this;
    }

    method SetCourse(v: JString) returns (self: Student)
      modifies this
      ensures self == this && Snapshot() == old(Snapshot()).(course := v)
    {
      course := v;
      self := this;
    }

    method SetMarks(v: real) returns (self: Student)
      modifies this
      ensures self == this && Snapshot() == old(Snapshot()).(marks := v)
    {
      marks := v;
      self := this;
    }

    method SetCreatedAt(v: Option<Timestamp>) returns (self: Student)
      modifies this
      ensures self == this && Snapshot() == old(Snapshot()).(createdAt := v)
    {
      createdAt := v;
      self := this;
    }

    method SetUpdatedAt(v: Option<Timestamp>) returns (self: Student)
      modifies this
      ensures self == this && Snapshot() == old(Snapshot()).(updatedAt := v)
    {
      updatedAt := v;
      self := this;
    }

    // -------------------------------------------------------------------
    // Validation
    // -------------------------------------------------------------------

    /** The email is present and matches ^[A-Za-z0-9+_.-]+@(.+)$ as a whole. */
    predicate IsValidEmail()
      reads this
      ensures IsValidEmail() <==> email.Some? && IsEmailShaped(email.value)
    {
      email.Some? && MatchesEmail(email.value)
    }

    /** The phone is present and matches \d{10} as a whole. */
    predicate IsValidPhone()
      reads this
      ensures IsValidPhone() <==>
        && phone.Some?
        && |phone.value| == 10
        && forall i :: 0 <= i < |phone.value| ==> '0' <= phone.value[i] <= '9'
    {
      phone.Some? && MatchesDigits(phone.value, PHONE_LENGTH)
    }

    /** The marks lie in the closed range [0, 100]. */
    predicate IsValidMarks()
      reads this
      ensures IsValidMarks() <==> 0.0 <= marks <= 100.0
    {
      marks >= MIN_MARKS && marks <= MAX_MARKS
    }

    /**
     Roll number, name and course each hold a character above U+0020, and
     email, phone and marks are valid.
     */
    predicate IsValid()
      reads this
      ensures IsValid() <==>
        && rollNumber.Some? && HasVisibleChar(rollNumber.value)
        && name.Some? && HasVisibleChar(name.value)
        && course.Some? && HasVisibleChar(course.value)
        && IsValidEmail() && IsValidPhone() && IsValidMarks()
    {
      && NotBlank(rollNumber)
      && NotBlank(name)
      && IsValidEmail()
      && IsValidPhone()
      && NotBlank(course)
      && IsValidMarks()
    }

    // -------------------------------------------------------------------
    // Ordering, equality, hashing
    // -------------------------------------------------------------------

    /**
     compareTo: 1 against null; -1 whenever this roll number is null; 1
     when only the other's is null; otherwise String.compareTo on the roll
     numbers.
     */
    function CompareTo(other: Student?): (c: int)
      reads this, other
      ensures other == null ==> c == 1
      ensures other != null && rollNumber.None? ==> c == -1
      ensures other != null && rollNumber.Some? && other.rollNumber.None? ==> c == 1
      ensures other != null && rollNumber.Some? && other.rollNumber.Some? ==>
        && (c == 0 <==> rollNumber == other.rollNumber)
        && (c < 0 <==> StrLess(rollNumber.value, other.rollNumber.value))
    {
      if other == null then 1
      else if rollNumber.None? then -1
      else if other.rollNumber.None? then 1
      else CompareStrings(rollNumber.value, other.rollNumber.value)
    }

    /** equals: the same object, or another Student with an equal roll number. */
    predicate Equals(o: Student?)
      reads this, o
      ensures Equals(o) <==> o != null && rollNumber == o.rollNumber
    {
      this == o || (o != null && rollNumber == o.rollNumber)
    }

    /** hashCode: Objects.hash(rollNumber), that is 31 + the string's hash, as an int. */
    function HashCode(): (h: int)
      reads this
      ensures INT_MIN <= h <= INT_MAX
      ensures rollNumber.None? ==> h == 31
      ensures rollNumber.Some? ==> h == Wrap32(31 + HashPolynomial(rollNumber.value))
    {
      if rollNumber.None? then Wrap32(31 * 1 + 0)
      else
        var p := HashPolynomial(rollNumber.value);
        StringHashIsWrappedPolynomial(rollNumber.value);
        Wrap32Congruent(31 + Wrap32(p), 31 + p);
        Wrap32(31 * 1 + StringHash(rollNumber.value))
    }
  }

  /** Equal students have equal hash codes. */
  lemma EqualsConsistentWithHashCode(a: Student, b: Student)
    requires a.Equals(b)
    ensures a.HashCode() == b.HashCode() && b.Equals(a)
  {
  }

  /**
   With non-null roll numbers, compareTo is antisymmetric, transitive, and
   zero exactly when equals holds.
   */
  lemma CompareToIsOrder(a: Student, b: Student, c: Student)
    requires a.rollNumber.Some? && b.rollNumber.Some? && c.rollNumber.Some?
    ensures b.CompareTo(a) == -a.CompareTo(b)
    ensures a.CompareTo(b) == 0 <==> a.Equals(b)
    ensures a.CompareTo(b) < 0 && b.CompareTo(c) < 0 ==> a.CompareTo(c) < 0
  {
    CompareStringsAntisymmetric(a.rollNumber.value, b.rollNumber.value);
    if a.CompareTo(b) < 0 && b.CompareTo(c) < 0 {
      StrLessTransitive(a.rollNumber.value, b.rollNumber.value, c.rollNumber.value);
    }
  }

  /**
   With a null roll number compareTo answers -1 in both directions, even on
   the object itself, while equals calls two such students equal.
   */
  lemma CompareToWithNullRollNumbers(a: Student, b: Student)
    requires a.rollNumber.None? && b.rollNumber.None?
    ensures a.CompareTo(b) == -1 && b.CompareTo(a) == -1 && a.CompareTo(a) == -1
    ensures a.Equals(b)
  {
  }

  /** The builder Student.builder() returns: six fields, set fluently, then built. */
  class Builder {
    var rollNumber: JString
    var name: JString
    var email: JString
    var phone: JString
    var course: JString
    var marks: real

    constructor ()
      ensures rollNumber == None && name == None && email == None
      ensures phone == None && course == None && marks == 0.0
    {
      rollNumber, name, email, phone, course := None, None, None, None, None;
      marks := 0.0;
    }

    method RollNumber(v: JString) returns (self: Builder)
      modifies this
      ensures self == this && rollNumber == v
      ensures name == old(name) && email == old(email) && phone == old(phone)
      ensures course == old(course) && marks == old(marks)
    {
      rollNumber := v;
      self := this;
    }

    method Name(v: JString) returns (self: Builder)
      modifies this
      ensures self == this && name == v
      ensures rollNumber == old(rollNumber) && email == old(email) && phone == old(phone)
      ensures course == old(course) && marks == old(marks)
    {
      name := v;
      self := this;
    }

    method Email(v: JString) returns (self: Builder)
      modifies this
      ensures self == this && email == v
      ensures rollNumber == old(rollNumber) && name == old(name) && phone == old(phone)
      ensures course == old(course) && marks == old(marks)
    {
      email := v;
      self := this;
    }

    method Phone(v: JString) returns (self: Builder)
      modifies this
      ensures self == this && phone == v
      ensures rollNumber == old(rollNumber) && name == old(name) && email == old(email)
      ensures course == old(course) && marks == old(marks)
    {
      phone := v;
      self := this;
    }

    method Course(v: JString) returns (self: Builder)
      modifies this
      ensures self == this && course == v
      ensures rollNumber == old(rollNumber) && name == old(name) && email == old(email)
      ensures phone == old(phone) && marks == old(marks)
    {
      course := v;
      self := this;
    }

    method Marks(v: real) returns (self: Builder)
      modifies this
      ensures self == this && marks == v
      ensures rollNumber == old(rollNumber) && name == old(name) && email == old(email)
      ensures phone == old(phone) && course == old(course)
    {
      marks := v;
      self := this;
    }

    /** A new Student holding the six collected fields, timestamps unset. */
    method Build() returns (s: Student)
      ensures fresh(s)
      ensures s.Snapshot() == Fields(rollNumber, name, email, phone, course, marks, None, None)
    {
      s := new Student(rollNumber, name, email, phone, course, marks);
    }
  }

  /** The roll number, name and course of the sample record are not blank. */
  lemma SampleTextFieldsNotBlank()
    ensures NotBlank(Some("S1")) && NotBlank(Some("Ann")) && NotBlank(Some("CS"))
  {
    assert !IsTrimmable("S1"[0]) && !IsTrimmable("Ann"[0]) && !IsTrimmable("CS"[0]);
  }

  /** The sample email has the shape local-part@domain. */
  lemma SampleEmailMatches()
    ensures MatchesEmail("ann@x.com")
  {
    var s := "ann@x.com";
    assert IsLocalPartChar(s[0]) && IsLocalPartChar(s[1]) && IsLocalPartChar(s[2]);
    assert s[3] == '@' && !IsLocalPartChar(s[3]);
    assert LocalPartLength(s) == 3;
    assert MatchesAnyRun(s[4..]);
  }

  /** The sample phone is ten digits. */
  lemma SamplePhoneMatches()
    ensures MatchesDigits("1234567890", PHONE_LENGTH)
  {
    var s := "1234567890";
    assert |s| == PHONE_LENGTH;
    assert forall i :: 0 <= i < |s| ==> IsAsciiDigit(s[i]) by {
      assert s == ['1', '2', '3', '4', '5', '6', '7', '8', '9', '0'];
    }
  }

  /** A sample record passes every validator of the entity. */
  method ExampleStudentIsValid() returns (valid: bool)
    ensures valid
  {
    var ann := new Student(Some("S1"), Some("Ann"), Some("ann@x.com"), Some("1234567890"), Some("CS"), 88.5);
    SampleTextFieldsNotBlank();
    SampleEmailMatches();
    SamplePhoneMatches();
    valid := ann.IsValid();
  }
}
