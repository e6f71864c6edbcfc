# Student Management System: the student entity and its data-access object

This project models the core of a desktop CRUD application for student
records. It covers two parts.

- **The `Student` entity** (`StudentModel`, with `Validation` and
  `JavaLang`). It is a mutable object with six data fields (roll number,
  name, email, phone, course, marks) and two timestamps. It has fluent
  setters and a builder. Its validators check:
  - the email against `^[A-Za-z0-9+_.-]+@(.+)$`;
  - the phone against `\d{10}`;
  - the marks against the closed range [0, 100];
  - that roll number, name and course are not blank.

  It also has `compareTo` by roll number, and `equals`/`hashCode` that use
  the roll number alone.
- **The data-access object** (`StudentDao`). The students table is seen as
  a map from the primary key `roll_number` to the other five columns. Add
  issues two statements: it first counts the rows with the roll number,
  and inserts only when that count is zero. Each other DAO method issues
  one statement and does what that statement means on the map:
  - add is check-then-insert (the two statements above);
  - list-all is `ORDER BY roll_number`;
  - lookup is by key;
  - name search is `LIKE '%name%'`;
  - update replaces the five non-key columns;
  - delete removes the row;
  - the existence test is `COUNT(*)`.

Java's library behaviour is written out where results depend on it:
- `String.trim` drops characters up to U+0020;
- `String.compareTo` returns the difference of the first differing
  characters, or else of the lengths;
- `String.hashCode` is computed in wrapping 32-bit `int` arithmetic;
- `String.matches` matches the whole string, and `.` refuses the five
  line terminators;
- string concatenation turns a null name into `"null"`. So searching with a
  null name looks for the text `null`.

Name search is modelled with a real `LIKE` matcher, in which `%` and `_`
are wildcards and `\` escapes. `SearchPatternIsSubstring` proves that, for a
query without those characters, the search means substring containment.

`compareTo` is a consistent order only among students with non-null roll
numbers (`CompareToIsOrder`). With a null roll number it answers -1 in both
directions, even when a student is compared with itself. `equals` calls two
such students equal (`CompareToWithNullRollNumbers`).

`ExampleSession` is a verified client of the DAO that runs this sequence on
an empty table:
1. It adds S1 and lists the table.
2. It tries to add S1 again, which is refused.
3. It updates the marks to 91.0 and lists the table.
4. It deletes S1 and lists the table, which is now empty.

`ExampleStudentIsValid` shows that the same record passes every validator.
`SampleTextFieldsNotBlank`, `SampleEmailMatches` and `SamplePhoneMatches`
check its fields one validator at a time.

## Model

| member | source | states |
|---|---|---|
| `JavaLang.Wrap32` | src/com/sms/model/Student.java:206-209 | the result is a Java int and is congruent to the exact value modulo 2^32; in-range values are unchanged |
| `JavaLang.Wrap32Congruent` | src/com/sms/model/Student.java:206-209 | exact results that differ by a multiple of 2^32 wrap to the same int |
| `JavaLang.TrimStart` | src/com/sms/model/Student.java:175-179 | the result is a suffix of the input; everything dropped is at most U+0020; the result does not start with such a character |
| `JavaLang.TrimEnd` | src/com/sms/model/Student.java:175-179 | the result is a prefix of the input; everything dropped is at most U+0020; the result does not end with such a character |
| `JavaLang.TrimmedPiece` | src/com/sms/model/Student.java:175-179 | dropping a trimmable prefix and then a trimmable tail leaves a contiguous piece of the input, with only trimmable characters before and after it and none at its ends |
| `JavaLang.Trim` | src/com/sms/model/Student.java:175-179 | `String.trim` leaves the contiguous piece of the input that starts where the leading run of characters up to U+0020 ends; every character after the piece is at most U+0020; a non-empty result starts and ends with a character above U+0020 |
| `JavaLang.TrimEmptyIffAllTrimmable` | src/com/sms/model/Student.java:175-179 | `trim()` is empty exactly when every character is at most U+0020 |
| `JavaLang.CompareStrings` | src/com/sms/model/Student.java:192 | `String.compareTo` is zero exactly when the two strings are equal |
| `JavaLang.CompareStringsValue` | src/com/sms/model/Student.java:192 | `String.compareTo` returns the difference of the characters at the first index where the strings differ, or else the difference of their lengths |
| `JavaLang.ProperPrefixTail` | src/com/sms/model/Student.java:192 | dropping an equal first character keeps one string a proper prefix of the other, and only then |
| `JavaLang.SmallerAtDifferenceTail` | src/com/sms/model/Student.java:192 | dropping an equal first character keeps the first difference in favour of the same string, and only then |
| `JavaLang.StrLessIsLex` | src/com/sms/model/Student.java:192 | compareTo is negative exactly when the first string is lexicographically smaller: a proper prefix of the second, or smaller at the first index where they differ |
| `JavaLang.CompareStringsAntisymmetric` | src/com/sms/model/Student.java:192 | swapping the arguments negates the result exactly |
| `JavaLang.StrLessTransitive` | src/com/sms/model/Student.java:192 | the order that compareTo induces on strings is transitive |
| `JavaLang.StrLessTotal` | src/com/sms/model/Student.java:192 | the order is irreflexive, and of two distinct strings exactly one sorts first |
| `JavaLang.StringHash` | src/com/sms/model/Student.java:208 | `String.hashCode` is always a Java int |
| `JavaLang.HashStepCongruent` | src/com/sms/model/Student.java:208 | one step h = 31h + c sends values congruent modulo 2^32 to the same int |
| `JavaLang.StringHashIsWrappedPolynomial` | src/com/sms/model/Student.java:208 | wrapping at every step of h = 31h + c gives s[0]*31^(n-1) + ... + s[n-1], wrapped once |
| `Validation.MatchesDigits` | src/com/sms/util/Constants.java:34 | a whole-string match of `\d{n}` holds exactly when the string has n characters, all ASCII digits |
| `Validation.LocalPartLength` | src/com/sms/util/Constants.java:33 | the greedy `[A-Za-z0-9+_.-]+` run covers only class characters and stops at the first character outside the class |
| `Validation.MatchesAnyRun` | src/com/sms/util/Constants.java:33 | `(.+)$` accepts exactly the non-empty rests that hold no line terminator |
| `Validation.EmailSplitAtRunEnd` | src/com/sms/util/Constants.java:33 | a string of the email shape can only be split where the greedy local-part run ends, and the split there holds exactly when an '@' follows the run and `(.+)$` accepts the rest |
| `Validation.MatchesEmail` | src/com/sms/model/Student.java:163 | `email.matches(EMAIL_PATTERN)` accepts exactly the strings made of a non-empty local part from the class, an '@', and a non-empty rest without line terminators; the split is at the first '@' |
| `Validation.NotBlank` | src/com/sms/model/Student.java:175-179 | `x != null && !x.trim().isEmpty()` holds exactly when x is non-null and has a character above U+0020 |
| `StudentModel.Student.Empty` | src/com/sms/model/Student.java:27-28 | the no-argument constructor leaves every reference null and the marks 0.0 |
| `StudentModel.Student.constructor` | src/com/sms/model/Student.java:31-38 | the six-argument constructor sets exactly the six given fields and leaves both timestamps unset |
| `StudentModel.Student.SetRollNumber` | src/com/sms/model/Student.java:93-96 | changes only the roll number and returns the same object |
| `StudentModel.Student.SetName` | src/com/sms/model/Student.java:102-105 | changes only the name and returns the same object |
| `StudentModel.Student.SetEmail` | src/com/sms/model/Student.java:111-114 | changes only the email and returns the same object |
| `StudentModel.Student.SetPhone` | src/com/sms/model/Student.java:120-123 | changes only the phone and returns the same object |
| `StudentModel.Student.SetCourse` | src/com/sms/model/Student.java:129-132 | changes only the course and returns the same object |
| `StudentModel.Student.SetMarks` | src/com/sms/model/Student.java:138-141 | changes only the marks and returns the same object |
| `StudentModel.Student.SetCreatedAt` | src/com/sms/model/Student.java:147-150 | changes only the creation timestamp and returns the same object |
| `StudentModel.Student.SetUpdatedAt` | src/com/sms/model/Student.java:156-159 | changes only the update timestamp and returns the same object |
| `StudentModel.Student.IsValidEmail` | src/com/sms/model/Student.java:162-164 | holds exactly when the email is non-null and has the shape of `^[A-Za-z0-9+_.-]+@(.+)$` |
| `StudentModel.Student.IsValidPhone` | src/com/sms/model/Student.java:166-168 | holds exactly when the phone is non-null and is 10 characters, each in '0'..'9' |
| `StudentModel.Student.IsValidMarks` | src/com/sms/model/Student.java:170-172 | holds exactly when 0 <= marks <= 100, both bounds included |
| `StudentModel.Student.IsValid` | src/com/sms/model/Student.java:174-181 | holds exactly when roll number, name and course are non-null with a character above U+0020, and email, phone and marks are valid |
| `StudentModel.Student.CompareTo` | src/com/sms/model/Student.java:185-193 | 1 against null; -1 when this roll number is null; 1 when only the other's is null; otherwise zero exactly on equal roll numbers and negative exactly when this one sorts first |
| `StudentModel.Student.Equals` | src/com/sms/model/Student.java:197-204 | holds exactly when the other student is non-null and has an equal roll number, whatever the other fields hold |
| `StudentModel.Student.HashCode` | src/com/sms/model/Student.java:207-209 | `Objects.hash(rollNumber)` is 31 for a null roll number, else 31 + the string's polynomial hash, wrapped to an int |
| `StudentModel.EqualsConsistentWithHashCode` | src/com/sms/model/Student.java:197-209 | equal students have equal hash codes, and equals is symmetric |
| `StudentModel.CompareToIsOrder` | src/com/sms/model/Student.java:185-204 | with non-null roll numbers compareTo is antisymmetric and transitive, and is zero exactly when equals holds |
| `StudentModel.CompareToWithNullRollNumbers` | src/com/sms/model/Student.java:185-204 | with null roll numbers compareTo answers -1 both ways and on the object itself, while equals holds |
| `StudentModel.SampleTextFieldsNotBlank` | src/com/sms/model/Student.java:174-181 | the roll number S1, the name Ann and the course CS are not blank |
| `StudentModel.SampleEmailMatches` | src/com/sms/util/Constants.java:33 | ann@x.com matches the email pattern |
| `StudentModel.SamplePhoneMatches` | src/com/sms/util/Constants.java:34 | 1234567890 matches the phone pattern |
| `StudentModel.ExampleStudentIsValid` | src/com/sms/model/Student.java:174-181 | the student S1, Ann, ann@x.com, 1234567890, CS, 88.5 passes `isValid` |
| `StudentModel.Builder.constructor` | src/com/sms/model/Student.java:41-51 | `Student.builder()` starts with every field null and the marks 0.0 |
| `StudentModel.Builder.RollNumber` | src/com/sms/model/Student.java:53-56 | sets only the roll number and returns the same builder |
| `StudentModel.Builder.Name` | src/com/sms/model/Student.java:58-61 | sets only the name and returns the same builder |
| `StudentModel.Builder.Email` | src/com/sms/model/Student.java:63-66 | sets only the email and returns the same builder |
| `StudentModel.Builder.Phone` | src/com/sms/model/Student.java:68-71 | sets only the phone and returns the same builder |
| `StudentModel.Builder.Course` | src/com/sms/model/Student.java:73-76 | sets only the course and returns the same builder |
| `StudentModel.Builder.Marks` | src/com/sms/model/Student.java:78-81 | sets only the marks and returns the same builder |
| `StudentModel.Builder.Build` | src/com/sms/model/Student.java:83-85 | returns a new Student holding exactly the six collected fields, with both timestamps unset |
| `SqlLike.Like` | src/com/sms/util/Constants.java:21 | `name LIKE ?` with `%`, `_` and the `\` escape; a pattern without those characters matches only the string equal to it (see the next four rows for `%`) |
| `SqlLike.SearchPatternMatchesContaining` | src/com/sms/dao/StudentDAO.java:128 | for a query without `%`, `_` or `\`, the pattern `%query%` matches exactly the strings that contain the query |
| `SqlLike.PercentMatchesAll` | src/com/sms/util/Constants.java:21 | the pattern `%` matches every string |
| `SqlLike.LiteralThenPercent` | src/com/sms/util/Constants.java:21 | literal text followed by `%` matches exactly the strings that start with that text |
| `SqlLike.PercentThen` | src/com/sms/util/Constants.java:21 | a leading `%` matches exactly when the rest of the pattern matches some suffix |
| `SqlLike.SearchPatternIsSubstring` | src/com/sms/dao/StudentDAO.java:128 | for a query without `%`, `_` or `\`, the pattern `%query%` matches exactly the names that contain the query |
| `StudentDao.RecordOf` | src/com/sms/dao/StudentDAO.java:241-252 | the result row read for a stored row carries its key and gives back exactly its five non-key columns |
| `StudentDao.RowOf` | src/com/sms/dao/StudentDAO.java:37-42 | the columns bound for a student, read back under its roll number, give the student's fields again with the unwritten timestamps unset; the update binds the same five columns (src/com/sms/dao/StudentDAO.java:156-160) |
| `StudentDao.SearchPattern` | src/com/sms/dao/StudentDAO.java:128 | `"%" + name + "%"` matches exactly the strings containing the name, for a name without wildcards or escapes, and exactly those containing `null` for a null name |
| `StudentDao.NameMatches` | src/com/sms/util/Constants.java:21 | `WHERE name LIKE ?` never holds for a NULL name; a pattern without wildcards or escapes matches only the equal name |
| `StudentDao.LeastKeyExists` | src/com/sms/util/Constants.java:17 | every non-empty set of roll numbers has a least element in compareTo order |
| `StudentDao.ListingHeadIsLeast` | src/com/sms/util/Constants.java:17 | the first row of an ordered listing has the least roll number in the table |
| `StudentDao.LeastIsUnique` | src/com/sms/util/Constants.java:17 | a set has at most one least roll number |
| `StudentDao.ListingTail` | src/com/sms/util/Constants.java:17 | an ordered listing without its first row lists the table without that row |
| `StudentDao.ListingAppend` | src/com/sms/dao/StudentDAO.java:72-75 | appending a row whose key sorts after every listed key lists the table with that row added |
| `StudentDao.ListingStep` | src/com/sms/dao/StudentDAO.java:72-75 | one step of the result loop keeps the listing ordered and keeps the listed keys ahead of all keys still to come |
| `StudentDao.OrderedListingUnique` | src/com/sms/util/Constants.java:17 | a table has exactly one listing ordered by roll number |
| `StudentDao.OrderedListingLength` | src/com/sms/util/Constants.java:17 | an ordered listing has as many records as the table has rows |
| `StudentDao.SingletonListing` | src/com/sms/util/Constants.java:17 | a table of one row is listed as that row alone |
| `StudentDao.RowCountIsKeyLookup` | src/com/sms/util/Constants.java:27 | since `roll_number` is the primary key, `COUNT(*) ... WHERE roll_number = ?` is 1 for a stored key and 0 for an unstored or null one |
| `StudentDao.SearchMatchesSubstrings` | src/com/sms/dao/StudentDAO.java:128 | for a name without `%`, `_` or `\`, a row matches the search pattern exactly when its name is non-null and contains that name |
| `StudentDao.StudentDAO.constructor` | src/com/sms/dao/StudentDAO.java:16 | the DAO works on the given table |
| `StudentDao.StudentDAO.IsRollNumberExists` | src/com/sms/dao/StudentDAO.java:215-232 | true exactly when `COUNT(*)` of rows with that roll number is positive, and so exactly when the roll number is non-null and stored; reads only |
| `StudentDao.StudentDAO.AddStudent` | src/com/sms/dao/StudentDAO.java:26-58 | succeeds exactly when the roll number is non-null and unused; then it inserts the given columns under that key and changes no other entry; otherwise the table is unchanged |
| `StudentDao.StudentDAO.GetAllStudents` | src/com/sms/dao/StudentDAO.java:65-85 | returns every stored row exactly once, in strictly ascending roll-number order, and as many records as there are rows |
| `StudentDao.StudentDAO.GetStudentByRollNumber` | src/com/sms/dao/StudentDAO.java:93-114 | returns the stored row whose key equals the argument, or null exactly when there is none |
| `StudentDao.StudentDAO.SearchStudentsByName` | src/com/sms/dao/StudentDAO.java:122-144 | returns exactly the stored rows whose non-null name matches `"%" + name + "%"`, each once; for a name without wildcards or escapes, exactly the rows whose name contains it |
| `StudentDao.StudentDAO.UpdateStudent` | src/com/sms/dao/StudentDAO.java:152-179 | succeeds exactly when the roll number is stored; then it replaces the five non-key columns of that row only; otherwise the table is unchanged |
| `StudentDao.StudentDAO.DeleteStudent` | src/com/sms/dao/StudentDAO.java:187-207 | succeeds exactly when the roll number is stored; then it removes only that row; otherwise the table is unchanged |
| `StudentDao.ExampleSession` | src/com/sms/dao/StudentDAO.java:26-207 | on an empty table, the sequence above behaves as follows: the first add succeeds and lists exactly S1; the second add is refused; the update succeeds and the listing shows marks 91.0; the delete succeeds and the listing is empty |

## Left out

- The Swing window (`StudentFrame`), its input checks and dialogs, the connection provider (`DatabaseConnection`) and the start-up code (`Main`) are not part of this model.
- SQL errors are not modelled; the model never fails, except that an insert with a null roll number is refused, as the primary key requires. In the source a failing statement is logged and then:
  - `addStudent`, `updateStudent` and `deleteStudent` return false, and `getStudentByRollNumber` returns null;
  - `isRollNumberExists` returns false, so `addStudent` goes on to attempt the insert (src/com/sms/dao/StudentDAO.java:215-232);
  - `getAllStudents` and `searchStudentsByName` return the list built so far, because the catch falls through to `return students` (src/com/sms/dao/StudentDAO.java:79-84, 138-143). If reading a later result row fails, for example in `extractStudentFromResultSet` (src/com/sms/dao/StudentDAO.java:241-252), the caller gets a partial list.
- Timestamps are left out of the table. The database fills in `created_at` and `updated_at`, and the model's rows hold only the six columns the application writes.
- Query results are values, not objects. `extractStudentFromResultSet` builds a fresh `Student` for each result row. The model returns `Record` values with the same six columns.
- MySQL collation is not modelled. Key equality, `ORDER BY` and `LIKE` compare character by character (a binary collation). Case-insensitive and trailing-space-insensitive comparisons are not modelled.
- Affected-row counts are not modelled. An update that finds its row counts as a success.
- Column lengths and other schema constraints are not modelled, because the schema is not part of the sources. Only the primary key on `roll_number` is assumed.
- `marks` is a real number. NaN, infinities and rounding of `double` are not modelled.
- A character is one Unicode scalar value, while Java works on UTF-16 code units. For characters outside the Basic Multilingual Plane, `compareTo` and `hashCode` can give different results.
- `StudentModel.Student.Equals` takes only a `Student` or null. An argument of another class, for which Java answers false, is not modelled.
- The getters, which only read a field, and `toString`, which builds a display string, are not modelled.
