/** The server's record store: the module-level `students` array and
    `nextId` counter of the student router, and its five handlers
    (list, get by id, create, update, delete). Each handler is a method that
    gives back the status code and the JSON body it sends. */
module StudentRoutes {
  import opened JsValues
  import opened Records

  /** `req.body` destructured into `{name, age, course}`; a missing field is
      `Undefined`. */
  datatype Payload = Payload(name: Value, age: Value, course: Value)

  /** The object that PUT stores under the array property "-1" (see Update). */
  datatype Slot = Slot(name: Value, age: Value, course: Value)

  /** What `res.json(...)` sends, or the error page Express sends when a
      handler throws. */
  datatype Body =
    | Listing(list: seq<Student>)
    | One(student: Student)
    | Merged(slot: Slot)
    | Message(message: string)
    | Error(error: string)
    | InternalError

  datatype Reply = Reply(status: int, body: Body)

  const NotFoundText := "Student not found"
  const RequiredText := "Name, age, and course are required"
  const DeletedText := "Student deleted successfully"

  /** The check `!name || !age || !course` fails: all three are truthy. */
  predicate RequiredFields(p: Payload)
  {
    Truthy(p.name) && Truthy(p.age) && Truthy(p.course)
  }

  /** The check passes exactly when none of the three fields is a falsy
      value: a missing field, null, NaN, false, 0 or the empty string. */
  lemma RequiredFieldsIff(p: Payload)
    ensures RequiredFields(p) <==> !Falsy(p.name) && !Falsy(p.age) && !Falsy(p.course)
  {
    TruthyIff(p.name);
    TruthyIff(p.age);
    TruthyIff(p.course);
  }

  /** The three records the store starts with. */
  function Seed(): seq<Student>
  {
    [ Student(1, Str("Pius Baraka"), Num(21), Str("Software Engineering")),
      Student(2, Str("Ahmed Ahmed"), Num(22), Str("Computer Engineering")),
      Student(3, Str("Issa Dedero"), Num(25), Str("Cyber Security")) ]
  }

  /** The store invariant: ids are pairwise distinct, each is among the
      ids ever assigned, and the counter is above every id ever assigned. */
  ghost predicate StoreInvariant(students: seq<Student>, nextId: int, issued: set<int>)
  {
    && UniqueIds(students)
    && (forall x :: x in students ==> x.id in issued)
    && (forall i :: i in issued ==> i < nextId)
  }

  datatype Field = NameField | AgeField | CourseField

  /** `students[-1].name` (or `.age`, `.course`): reading a property of the
      still-undefined `students[-1]` throws a TypeError (`None`). */
  function Stored(prev: Option<Slot>, f: Field): Option<Value>
  {
    match prev
    case None => None
    case Some(slot) =>
      Some(match f
           case NameField => slot.name
           case AgeField => slot.age
           case CourseField => slot.course)
  }

  /** `v || students[-1].f`: the stored value is read only when `v` is falsy. */
  function OrStored(v: Value, prev: Option<Slot>, f: Field): Option<Value>
  {
    if Truthy(v) then Some(v) else Stored(prev, f)
  }

  /** `age ? parseInt(age) : students[-1].age`. */
  function AgeOrStored(age: Value, prev: Option<Slot>): Option<Value>
  {
    if Truthy(age) then Some(ParseInt(age)) else Stored(prev, AgeField)
  }

  /** The object PUT writes to `students[-1]`: `{...prev, name: ..., age:
      ..., course: ...}`, its properties evaluated in order, the first
      throw ending the handler. Spreading an undefined `prev` adds nothing,
      and a stored slot has no property the three do not overwrite.
      A body with all three fields truthy never reads `prev`; a stored
      slot makes the merge total, and an all-falsy body then keeps it. */
  function Merge(prev: Option<Slot>, body: Payload): (r: Option<Slot>)
    ensures r.None? <==> prev.None? && !RequiredFields(body)
    ensures prev.Some? ==> r.Some?
    ensures RequiredFields(body) ==> r == Some(Slot(body.name, ParseInt(body.age), body.course))
    ensures !Truthy(body.name) && !Truthy(body.age) && !Truthy(body.course) ==> r == prev
    ensures r.Some? ==> r.value.name == (if Truthy(body.name) then body.name else prev.value.name)
    ensures r.Some? ==> r.value.age == (if Truthy(body.age) then ParseInt(body.age) else prev.value.age)
    ensures r.Some? ==> r.value.course == (if Truthy(body.course) then body.course else prev.value.course)
  {
    match OrStored(body.name, prev, NameField)
    case None => None
    case Some(name) =>
      match AgeOrStored(body.age, prev)
      case None => None
      case Some(age) =>
        match OrStored(body.course, prev, CourseField)
        case None => None
        case Some(course) => Some(Slot(name, age, course))
  }

  /** Sending the same PUT body again leaves the stored object as it was. */
  lemma MergeIdempotent(prev: Option<Slot>, body: Payload)
    requires Merge(prev, body).Some?
    ensures Merge(Merge(prev, body), body) == Merge(prev, body)
  {
  }

  class StudentStore {
    /** The `students` array, in insertion order. */
    var students: seq<Student>
    /** The `nextId` counter. */
    var nextId: int
    /** The array's non-index property "-1", written only by PUT; `None`
        while it is undefined. */
    var minusOne: Option<Slot>
    /** Every id ever assigned: the seeded ids and those the counter has
        handed out. */
    ghost var issued: set<int>

    ghost predicate Valid()
      reads this
    {
      StoreInvariant(students, nextId, issued)
    }

    /** The seeded store: ids 1 to 3, `nextId = 4`. */
    constructor ()
      ensures Valid()
      ensures students == Seed() && nextId == 4 && minusOne == None
      ensures issued == {1, 2, 3}
    {
      students := Seed();
      nextId := 4;
      minusOne := None;
      issued := {1, 2, 3};
    }

    /** GET `/`: the whole array, in stored order. */
    method List() returns (reply: Reply)
      ensures reply.status == 200
      ensures reply.body == Listing(students)
    {
      reply := Reply(200, Listing(students));
    }

    /** GET `/:id`: the first record whose id is `parseInt(param)`, or 404. */
    method Get(param: string) returns (reply: Reply)
      ensures reply.status == 200 <==> !NoMatch(students, ParseText(param))
      ensures reply.status == 200 ==>
        exists k :: IsFirstMatch(students, ParseText(param), k) && reply.body == One(students[k])
      ensures reply.status != 200 ==> reply == Reply(404, Message(NotFoundText))
    {
      var id := ParseText(param);
      var found := FindIndex(students, id);
      if found.Some? {
        reply := Reply(200, One(students[found.value]));
      } else {
        reply := Reply(404, Message(NotFoundText));
      }
    }

    /** POST `/`: with name, age and course all truthy, appends a record
        with the next id (age through `parseInt`, no other check) and answers
        201; otherwise 400 and nothing changes. */
    method Create(body: Payload) returns (reply: Reply)
      requires Valid()
      modifies this`students, this`nextId, this`issued
      ensures Valid()
      ensures nextId >= old(nextId)
      ensures !RequiredFields(body) ==>
        && reply == Reply(400, Error(RequiredText))
        && students == old(students) && nextId == old(nextId) && issued == old(issued)
      ensures RequiredFields(body) ==>
        var created := Student(old(nextId), body.name, ParseInt(body.age), body.course);
        && reply == Reply(201, One(created))
        && students == old(students) + [created]
        && nextId == old(nextId) + 1
        && created.id !in old(issued)
        && issued == old(issued) + {created.id}
    {
      if !Truthy(body.name) || !Truthy(body.age) || !Truthy(body.course) {
        reply := Reply(400, Error(RequiredText));
        return;
      }
      var created := Student(nextId, body.name, ParseInt(body.age), body.course);
      nextId := nextId + 1;
      issued := issued + {created.id};
      students := students + [created];
      reply := Reply(201, One(created));
    }

    /** PUT `/:id`, as written: the guard is inverted. An id that exists
        answers 400 "Student not found". An id that does not exist falls
        through to `students[-1] = {...}`, which writes the array's property
        "-1" and never an element; it answers 200 with that object, or 500
        when reading a falsy field's old value from an undefined
        `students[-1]` throws. */
    method Update(param: string, body: Payload) returns (reply: Reply)
      requires Valid()
      modifies this`minusOne
      ensures Valid()
      ensures students == old(students) && nextId == old(nextId)
      ensures !NoMatch(students, ParseText(param)) ==>
        reply == Reply(400, Error(NotFoundText)) && minusOne == old(minusOne)
      ensures NoMatch(students, ParseText(param)) && Merge(old(minusOne), body).None? ==>
        reply == Reply(500, InternalError) && minusOne == old(minusOne)
      ensures NoMatch(students, ParseText(param)) && Merge(old(minusOne), body).Some? ==>
        reply == Reply(200, Merged(Merge(old(minusOne), body).value))
        && minusOne == Merge(old(minusOne), body)
    {
      var id := ParseText(param);
      var index := FindIndex(students, id);
      if index.Some? {
        reply := Reply(400, Error(NotFoundText));
        return;
      }
      var merged := Merge(minusOne, body);
      if merged.None? {
        reply := Reply(500, InternalError);
        return;
      }
      minusOne := merged;
      reply := Reply(200, Merged(merged.value));
    }

    /** DELETE `/:id`: `students = students.filter(s => s.id !== id)`, then
        200 if the array got shorter and 404 otherwise. The filter builds a
        new array, so the property "-1" is gone afterwards. */
    method Delete(param: string) returns (reply: Reply)
      requires Valid()
      modifies this`students, this`minusOne
      ensures Valid()
      ensures students == RemoveId(old(students), ParseText(param))
      ensures minusOne == None
      ensures reply.status == 200 <==> |students| < |old(students)|
      ensures reply.status == 200 <==> !NoMatch(old(students), ParseText(param))
      ensures reply.status == 200 ==> reply.body == Message(DeletedText)
      ensures reply.status != 200 ==>
        reply == Reply(404, Message(NotFoundText)) && students == old(students)
    {
      var id := ParseText(param);
      var initialLength := |students|;
      RemoveIdMembers(students, id);
      RemoveIdKeepsUnique(students, id);
      RemoveIdUnchangedIff(students, id);
      students := RemoveId(students, id);
      minusOne := None;
      if |students| < initialLength {
        reply := Reply(200, Message(DeletedText));
      } else {
        reply := Reply(404, Message(NotFoundText));
      }
    }
  }

  /** Two deletes of the same id followed by a create: the second delete
      finds nothing, and the created record never gets the deleted id. */
  method DeleteTwiceThenCreate(store: StudentStore, param: string, body: Payload)
    returns (first: Reply, second: Reply, created: Reply)
    requires store.Valid() && RequiredFields(body)
    modifies store
    ensures store.Valid()
    ensures second == Reply(404, Message(NotFoundText))
    ensures created.status == 201 && created.body.One?
    ensures first.status == 200 ==> Num(created.body.student.id) != ParseText(param)
  {
    ghost var before := store.students;
    first := store.Delete(param);
    if first.status == 200 {
      ghost var k :| 0 <= k < |before| && HasId(before[k], ParseText(param));
      assert before[k] in before;
    }
    second := store.Delete(param);
    RemoveIdMembers(before, ParseText(param));
    RemoveIdUnchangedIff(store.students, ParseText(param));
    created := store.Create(body);
  }
}
