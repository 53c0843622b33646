/** The browser page's sync layer: the cached `students` list, the form's
    `currentStudentId` and the pending `studentToDelete`, the handlers that
    change them, and the search filter over the cache. Each `fetch` is a
    parameter (the awaited response) and each handler gives back the
    request it sends, if any. */
module ClientSync {
  import opened JsValues
  import opened Records
  import opened StudentRoutes

  /** An awaited `fetch` followed by `response.json()`: a 2xx response with
      its JSON, or a failure (network error or a non-2xx status) that the
      handler's `catch` receives. */
  datatype Response<T> = Ok(payload: T) | Failed

  /** The requests the page sends; `param` is the text after
      `/api/students/`. */
  datatype Request =
    | GetAll
    | GetOne(param: string)
    | Post(body: Payload)
    | Put(param: string, body: Payload)
    | Remove(param: string)

  /** The `.value` of the name input, the age input and the course select. */
  datatype Form = Form(name: string, age: string, course: string)

  /** The body built from the form: the name trimmed, age and course as
      they are. The page's check `!name || !age || !course` is the server's
      create check applied to this body. */
  function FormPayload(f: Form): (p: Payload)
    ensures p.name.Str? && p.age.Str? && p.course.Str?
    ensures RequiredFields(p) <==> Trim(f.name) != [] && f.age != [] && f.course != []
  {
    var name := Trim(f.name);
    assert Truthy(Str(name)) <==> name != [];
    Payload(Str(name), Str(f.age), Str(f.course))
  }

  /** The form passes the page's check exactly when the name has a
      character other than white space and age and course are not empty. */
  lemma FormAcceptedIff(f: Form)
    ensures RequiredFields(FormPayload(f)) <==>
      (exists k :: 0 <= k < |f.name| && !IsSpace(f.name[k])) && f.age != [] && f.course != []
  {
    TrimEmptyIff(f.name);
  }

  class Client {
    /** The cache of the server's list. */
    var students: seq<Student>
    /** `Null` while the form creates, the edited record's id while it updates. */
    var currentStudentId: Value
    /** The id awaiting confirmation in the delete dialog, or `Null`. */
    var studentToDelete: Value

    /** The form is in one of its two modes, and the dialog holds an id or nothing. */
    ghost predicate Valid()
      reads this
    {
      (currentStudentId == Null || currentStudentId.Num?)
      && (studentToDelete == Null || studentToDelete.Num?)
    }

    constructor ()
      ensures Valid()
      ensures students == [] && currentStudentId == Null && studentToDelete == Null
    {
      students := [];
      currentStudentId := Null;
      studentToDelete := Null;
    }

    /** `loadStudents`: the cache becomes the server's list, or stays as it
        was when the request fails. */
    method LoadStudents(response: Response<seq<Student>>) returns (request: Request)
      requires Valid()
      modifies this`students
      ensures Valid()
      ensures request == GetAll
      ensures response.Ok? ==> students == response.payload
      ensures response.Failed? ==> students == old(students)
    {
      request := GetAll;
      if response.Ok? {
        students := response.payload;
      }
    }

    /** `resetForm`: back to create mode. */
    method ResetForm()
      requires Valid()
      modifies this`currentStudentId
      ensures Valid()
      ensures currentStudentId == Null
    {
      currentStudentId := Null;
    }

    /** `cancelEdit`: leaves update mode without a request; the cache is
        not touched. */
    method CancelEdit()
      requires Valid()
      modifies this`currentStudentId
      ensures Valid()
      ensures currentStudentId == Null
      ensures students == old(students) && studentToDelete == old(studentToDelete)
    {
      ResetForm();
    }

    /** `handleFormSubmit`: a form that fails the check sends nothing and
        changes nothing; otherwise `addStudent` runs with the form's body. */
    method HandleFormSubmit(form: Form, response: Response<Student>) returns (request: Option<Request>)
      requires Valid()
      modifies this`students, this`currentStudentId
      ensures Valid()
      ensures !RequiredFields(FormPayload(form)) ==>
        request == None && students == old(students) && currentStudentId == old(currentStudentId)
      ensures RequiredFields(FormPayload(form)) ==> request == Some(Post(FormPayload(form)))
      ensures RequiredFields(FormPayload(form)) && response.Ok? ==>
        students == old(students) + [response.payload] && currentStudentId == Null
      ensures RequiredFields(FormPayload(form)) && response.Failed? ==>
        students == old(students) && currentStudentId == old(currentStudentId)
    {
      var data := FormPayload(form);
      if !RequiredFields(data) {
        request := None;
        return;
      }
      var sent := AddStudent(data, response);
      request := Some(sent);
    }

    /** `addStudent`: POSTs the body; on success the returned record goes
        to the end of the cache and the form is reset; on failure nothing
        changes. */
    method AddStudent(data: Payload, response: Response<Student>) returns (request: Request)
      requires Valid()
      modifies this`students, this`currentStudentId
      ensures Valid()
      ensures request == Post(data)
      ensures response.Ok? ==> students == old(students) + [response.payload] && currentStudentId == Null
      ensures response.Failed? ==> students == old(students) && currentStudentId == old(currentStudentId)
    {
      request := Post(data);
      if response.Ok? {
        students := students + [response.payload];
        ResetForm();
      }
    }

    /** `editStudent(id)`: fetches the record and, when that succeeds,
        enters update mode for `id`. */
    method EditStudent(id: int, response: Response<Student>) returns (request: Request)
      requires Valid()
      modifies this`currentStudentId
      ensures Valid()
      ensures request == GetOne(Decimal(id))
      ensures response.Ok? ==> currentStudentId == Num(id)
      ensures response.Failed? ==> currentStudentId == old(currentStudentId)
      ensures students == old(students)
    {
      request := GetOne(Decimal(id));
      if response.Ok? {
        currentStudentId := Num(id);
      }
    }

    /** `handleUpdate`: after the form check, PUTs to the remembered id. On
        success the first cache entry with that id (if any) becomes the
        server's reply and the form is reset; on failure nothing changes. */
    method HandleUpdate(form: Form, response: Response<Student>) returns (request: Option<Request>)
      requires Valid()
      modifies this`students, this`currentStudentId
      ensures Valid()
      ensures !RequiredFields(FormPayload(form)) || response.Failed? ==>
        students == old(students) && currentStudentId == old(currentStudentId)
      ensures !RequiredFields(FormPayload(form)) ==> request == None
      ensures RequiredFields(FormPayload(form)) ==>
        request == Some(Put(ToText(old(currentStudentId)), FormPayload(form)))
      ensures RequiredFields(FormPayload(form)) ==>
        if old(currentStudentId).Num? then request.value.param == Decimal(old(currentStudentId).n)
        else request.value.param == "null"
      ensures RequiredFields(FormPayload(form)) && response.Ok? ==>
        && currentStudentId == Null
        && students == ReplaceFirst(old(students), old(currentStudentId), response.payload)
    {
      var data := FormPayload(form);
      if !RequiredFields(data) {
        request := None;
        return;
      }
      request := Some(Put(ToText(currentStudentId), data));
      assert ToText(currentStudentId) ==
        if currentStudentId.Num? then Decimal(currentStudentId.n) else "null";
      if response.Ok? {
        students := ReplaceFirst(students, currentStudentId, response.payload);
        ResetForm();
      }
    }

    /** `openDeleteModal(id, name)`: remembers the id; nothing is sent. */
    method OpenDeleteModal(id: int)
      requires Valid()
      modifies this`studentToDelete
      ensures Valid()
      ensures studentToDelete == Num(id)
      ensures students == old(students) && currentStudentId == old(currentStudentId)
    {
      studentToDelete := Num(id);
    }

    /** `closeDeleteModal`: forgets the pending id. */
    method CloseDeleteModal()
      requires Valid()
      modifies this`studentToDelete
      ensures Valid()
      ensures studentToDelete == Null
    {
      studentToDelete := Null;
    }

    /** `confirmDelete`: does nothing while the pending id is falsy (null or
        0). Otherwise DELETEs it; on success every cache entry with that id
        goes, on failure the cache stays; the dialog is closed either way. */
    method ConfirmDelete(response: Response<()>) returns (request: Option<Request>)
      requires Valid()
      modifies this`students, this`studentToDelete
      ensures Valid()
      ensures !Truthy(old(studentToDelete)) ==>
        request == None && students == old(students) && studentToDelete == old(studentToDelete)
      ensures Truthy(old(studentToDelete)) ==>
        && request == Some(Remove(ToText(old(studentToDelete))))
        && old(studentToDelete).Num?
        && request.value.param == Decimal(old(studentToDelete).n)
        && studentToDelete == Null
      ensures Truthy(old(studentToDelete)) && response.Ok? ==>
        students == RemoveId(old(students), old(studentToDelete))
      ensures Truthy(old(studentToDelete)) && response.Failed? ==> students == old(students)
      ensures currentStudentId == old(currentStudentId)
    {
      if !Truthy(studentToDelete) {
        request := None;
        return;
      }
      request := Some(Remove(ToText(studentToDelete)));
      if response.Ok? {
        students := RemoveId(students, studentToDelete);
      }
      CloseDeleteModal();
    }
  }

  // ---------------------------------------------------------------------------
  // Search

  /** `v.toLowerCase().includes(term)`; `None` is the TypeError thrown when
      `v` is not a string. */
  function LowerIncludes(v: Value, term: string): Option<bool>
  {
    if v.Str? then Some(Contains(Lower(v.s), term)) else None
  }

  /** `v.toString().includes(term)`; `None` is the TypeError for undefined
      and null. */
  function TextIncludes(v: Value, term: string): Option<bool>
  {
    match ToStringCall(v)
    case None => None
    case Some(t) => Some(Contains(t, term))
  }

  /** The filter's test for one record: name, course, age and id, joined by
      `||` and evaluated left to right, so a throwing operand after a match
      is never reached. */
  function Matches(x: Student, term: string): Option<bool>
  {
    match LowerIncludes(x.name, term)
    case None => None
    case Some(true) => Some(true)
    case Some(false) =>
      match LowerIncludes(x.course, term)
      case None => None
      case Some(true) => Some(true)
      case Some(false) =>
        match TextIncludes(x.age, term)
        case None => None
        case Some(true) => Some(true)
        case Some(false) => Some(Contains(Decimal(x.id), term))
  }

  /** The `||` chain short-circuits: a name match accepts the record
      whatever the other fields hold; a rejection means all four tests ran
      and failed; a throw needs a name or course that is not a string, or
      an undefined or null age. */
  lemma MatchesShortCircuit(x: Student, term: string)
    ensures LowerIncludes(x.name, term) == Some(true) ==> Matches(x, term) == Some(true)
    ensures Matches(x, term) == Some(false) <==>
      && LowerIncludes(x.name, term) == Some(false)
      && LowerIncludes(x.course, term) == Some(false)
      && TextIncludes(x.age, term) == Some(false)
      && !Contains(Decimal(x.id), term)
    ensures Matches(x, term).None? ==>
      !x.name.Str? || !x.course.Str? || x.age.Undefined? || x.age.Null?
  {
  }

  /** `s.filter(test)` with a callback that may throw: `None` when the
      test throws for some record (the filter stops there). */
  function Select(s: seq<Student>, test: Student -> Option<bool>): (r: Option<seq<Student>>)
    ensures r.Some? ==> |r.value| <= |s|
  {
    if s == [] then Some([])
    else
      match test(s[0])
      case None => None
      case Some(keep) =>
        match Select(s[1..], test)
        case None => None
        case Some(rest) => Some(if keep then [s[0]] + rest else rest)
  }

  /** `filterStudents`: the view shown for a search text. An empty
      lower-cased, trimmed term shows the whole cache; otherwise the cache
      is filtered with `Matches`. */
  function FilterStudents(cache: seq<Student>, search: string): (r: Option<seq<Student>>)
    ensures Trim(Lower(search)) == [] ==> r == Some(cache)
  {
    var term := Trim(Lower(search));
    if term == [] then Some(cache) else Select(cache, x => Matches(x, term))
  }

  /** The selection throws exactly when the test throws for some record. */
  lemma {:induction false} SelectDefinedIff(s: seq<Student>, test: Student -> Option<bool>)
    ensures Select(s, test).Some? <==> forall j :: 0 <= j < |s| ==> test(s[j]).Some?
  {
    if s != [] {
      SelectDefinedIff(s[1..], test);
      assert forall j :: 1 <= j < |s| ==> s[j] == s[1..][j - 1];
    }
  }

  /** The selection keeps exactly the records the test accepts. */
  lemma {:induction false} SelectMembers(s: seq<Student>, test: Student -> Option<bool>)
    requires Select(s, test).Some?
    ensures forall x :: x in Select(s, test).value <==> x in s && test(x) == Some(true)
  {
    if s != [] {
      SelectMembers(s[1..], test);
      assert forall x :: x in s <==> x == s[0] || x in s[1..];
    }
  }

  /** The selection keeps cache order: it distributes over concatenation. */
  lemma {:induction false} SelectAppend(a: seq<Student>, b: seq<Student>, test: Student -> Option<bool>)
    requires Select(a, test).Some? && Select(b, test).Some?
    ensures Select(a + b, test) == Some(Select(a, test).value + Select(b, test).value)
  {
    if a == [] {
      assert a + b == b;
      assert Select(a, test).value + Select(b, test).value == Select(b, test).value;
    } else {
      var tail := Select(a[1..], test);
      var others := Select(b, test).value;
      assert (a + b)[0] == a[0] && (a + b)[1..] == a[1..] + b;
      assert test(a[0]).Some? && tail.Some?;
      SelectAppend(a[1..], b, test);
      if test(a[0]).value {
        assert Select(a, test) == Some([a[0]] + tail.value);
        assert Select(a + b, test) == Some([a[0]] + (tail.value + others));
        assert [a[0]] + (tail.value + others) == ([a[0]] + tail.value) + others;
      } else {
        assert Select(a, test) == tail;
        assert Select(a + b, test) == Select(a[1..] + b, test);
      }
    }
  }

  /** Records whose name and course are strings and whose age is not
      null: the filter's test never throws on them. */
  ghost predicate Searchable(cache: seq<Student>)
  {
    forall x :: x in cache ==> x.name.Str? && x.course.Str? && !x.age.Undefined? && !x.age.Null?
  }

  /** The test on a searchable record, without the exceptions. */
  predicate FieldsMatch(x: Student, term: string)
    requires x.name.Str? && x.course.Str?
  {
    || Contains(Lower(x.name.s), term)
    || Contains(Lower(x.course.s), term)
    || Contains(ToText(x.age), term)
    || Contains(Decimal(x.id), term)
  }

  /** On a searchable record the test does not throw and gives the
      disjunction of the four field tests. */
  lemma MatchesSearchable(x: Student, term: string)
    requires x.name.Str? && x.course.Str? && !x.age.Undefined? && !x.age.Null?
    ensures Matches(x, term) == Some(FieldsMatch(x, term))
  {
  }

  /** On a searchable cache and a non-empty term, the view holds exactly
      the records, in cache order, whose lower-cased name or course, or
      whose age or id as text, contains the term. */
  lemma FilterSelectsMatches(cache: seq<Student>, search: string)
    requires Searchable(cache)
    requires Trim(Lower(search)) != []
    ensures FilterStudents(cache, search).Some?
    ensures forall x :: x in FilterStudents(cache, search).value <==>
      x in cache && FieldsMatch(x, Trim(Lower(search)))
  {
    var term := Trim(Lower(search));
    var test := x => Matches(x, term);
    forall j | 0 <= j < |cache| ensures test(cache[j]) == Some(FieldsMatch(cache[j], term)) {
      assert cache[j] in cache;
      MatchesSearchable(cache[j], term);
    }
    SelectDefinedIff(cache, test);
    SelectMembers(cache, test);
    forall x | x in cache ensures test(x) == Some(FieldsMatch(x, term)) {
      MatchesSearchable(x, term);
    }
  }

  /** An id the page writes into a URL (`${id}`) is read back by the
      routes' `parseInt` as the same number. */
  lemma RequestIdRoundTrip(v: Value)
    requires v.Num?
    ensures ParseText(ToText(v)) == v
  {
    DecimalRoundTrip(v.n);
  }

  /** The URL `/null` a PUT in create mode goes to parses to NaN, which no
      record's id equals. */
  lemma NullIdIsNaN()
    ensures ParseText(ToText(Null)) == NaN
  {
    TrimStartKeeps("null");
  }

  /** What the page's `fetch` makes of a GET reply for one record:
      `response.ok` holds for a 2xx status, and the JSON is the record. */
  function ReceivedRecord(get: Reply): Response<Student>
  {
    if 200 <= get.status < 300 && get.body.One? then Ok(get.body.student) else Failed
  }

  /** What the page's `fetch` makes of a PUT reply: `response.ok` holds for
      a 2xx status, and the JSON is the merged object. That object carries
      no `id`; the record is given the id the page PUT to. */
  function Received(put: Reply, id: int): Response<Student>
  {
    if 200 <= put.status < 300 && put.body.Merged? then
      Ok(Student(id, put.body.slot.name, put.body.slot.age, put.body.slot.course))
    else Failed
  }

  /** The page, whose cache agrees with the server, edits a record the
      server holds (the fetch succeeds) and submits a complete form: the page
      PUTs to that record's id, the server's inverted guard refuses the
      update, the page stays in update mode, and the cache still agrees
      with the server. */
  method UpdateOfStoredRecord(store: StudentStore, page: Client, k: int, form: Form)
    returns (sent: Option<Request>, put: Reply)
    requires store.Valid() && page.Valid()
    requires page.students == store.students
    requires 0 <= k < |store.students|
    requires RequiredFields(FormPayload(form))
    modifies store, page
    ensures sent == Some(Put(Decimal(old(store.students[k].id)), FormPayload(form)))
    ensures put == Reply(400, Error(NotFoundText))
    ensures page.students == store.students
    ensures page.currentStudentId == Num(old(store.students[k].id))
  {
    var id := store.students[k].id;
    var param := Decimal(id);
    DecimalRoundTrip(id);
    assert HasId(store.students[k], ParseText(param));
    var got := store.Get(param);
    assert got.status == 200 && got.body.One?;
    var editing := page.EditStudent(id, ReceivedRecord(got));
    put := store.Update(param, FormPayload(form));
    sent := page.HandleUpdate(form, Received(put, id));
    assert sent == Some(Put(param, FormPayload(form)));
  }
}
