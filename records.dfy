/** The student record both sides hold, and the two list operations both
    sides apply to a list of records: `findIndex`/`find` by id and
    `filter(s => s.id !== id)`. */
module Records {
  import opened JsValues

  /** `{id, name, age, course}`. The server assigns `id`; the other fields
      keep whatever value the request body supplied (for `age`, the result
      of `parseInt`). */
  datatype Student = Student(id: int, name: Value, age: Value, course: Value)

  /** `s.id === key`: a numeric id is strictly equal only to the same number. */
  predicate HasId(x: Student, key: Value)
  {
    key == Num(x.id)
  }

  /** `k` is the index of the first record of `s` whose id is `key`. */
  ghost predicate IsFirstMatch(s: seq<Student>, key: Value, k: int)
  {
    0 <= k < |s| && HasId(s[k], key) && forall j :: 0 <= j < k ==> !HasId(s[j], key)
  }

  ghost predicate NoMatch(s: seq<Student>, key: Value)
  {
    forall j :: 0 <= j < |s| ==> !HasId(s[j], key)
  }

  /** No two records of `s` share an id. */
  ghost predicate UniqueIds(s: seq<Student>)
  {
    forall i, j :: 0 <= i < j < |s| ==> s[i].id != s[j].id
  }

  /** `s.findIndex(x => x.id === key)`, with `None` for -1. */
  function FindIndex(s: seq<Student>, key: Value): (r: Option<nat>)
    ensures r.Some? ==> IsFirstMatch(s, key, r.value)
    ensures r.None? ==> NoMatch(s, key)
  {
    if s == [] then None
    else if HasId(s[0], key) then Some(0)
    else match FindIndex(s[1..], key)
      case None => None
      case Some(k) => Some(k + 1)
  }

  /** `i = s.findIndex(x => x.id === key); if (i !== -1) s[i] = x`: the
      first record with the id becomes `x`; the length and every other
      position are kept, and nothing changes when no record has the id. */
  function ReplaceFirst(s: seq<Student>, key: Value, x: Student): (r: seq<Student>)
    ensures |r| == |s|
    ensures forall j :: 0 <= j < |s| ==> r[j] == (if IsFirstMatch(s, key, j) then x else s[j])
  {
    match FindIndex(s, key)
    case None => s
    case Some(i) =>
      assert forall j :: 0 <= j < |s| && IsFirstMatch(s, key, j) ==> j == i;
      s[i := x]
  }

  /** `s.filter(x => x.id !== key)`: never longer than `s`, and no record
      with the id is left. */
  function RemoveId(s: seq<Student>, key: Value): (r: seq<Student>)
    ensures |r| <= |s|
    ensures NoMatch(r, key)
  {
    if s == [] then []
    else if HasId(s[0], key) then RemoveId(s[1..], key)
    else [s[0]] + RemoveId(s[1..], key)
  }

  /** The filter keeps exactly the records whose id is not `key`. */
  lemma {:induction false} RemoveIdMembers(s: seq<Student>, key: Value)
    ensures forall x :: x in RemoveId(s, key) <==> x in s && !HasId(x, key)
  {
    if s != [] {
      RemoveIdMembers(s[1..], key);
      assert forall x :: x in s <==> x == s[0] || x in s[1..];
    }
  }

  /** The filter keeps the survivors in their order: it distributes over
      concatenation. */
  lemma {:induction false} RemoveIdAppend(a: seq<Student>, b: seq<Student>, key: Value)
    ensures RemoveId(a + b, key) == RemoveId(a, key) + RemoveId(b, key)
  {
    if a == [] {
      assert a + b == b;
    } else {
      assert (a + b)[0] == a[0] && (a + b)[1..] == a[1..] + b;
      RemoveIdAppend(a[1..], b, key);
    }
  }

  /** The filter changes the list exactly when some record has the id, and
      then the list gets shorter. */
  lemma {:induction false} RemoveIdUnchangedIff(s: seq<Student>, key: Value)
    ensures RemoveId(s, key) == s <==> NoMatch(s, key)
    ensures RemoveId(s, key) != s <==> |RemoveId(s, key)| < |s|
  {
    if s != [] {
      var tail := s[1..];
      RemoveIdUnchangedIff(tail, key);
      var rest := RemoveId(tail, key);
      if HasId(s[0], key) {
        assert RemoveId(s, key) == rest && |rest| < |s|;
        assert !NoMatch(s, key);
      } else {
        assert RemoveId(s, key) == [s[0]] + rest;
        assert ([s[0]] + rest)[1..] == rest;
        assert s == [s[0]] + tail;
        assert NoMatch(s, key) <==> NoMatch(tail, key) by {
          assert forall j :: 1 <= j < |s| ==> s[j] == tail[j - 1];
          assert forall j :: 0 <= j < |tail| ==> tail[j] == s[j + 1];
        }
      }
    }
  }

  /** Dropping records never makes two ids equal. */
  lemma {:induction false} RemoveIdKeepsUnique(s: seq<Student>, key: Value)
    requires UniqueIds(s)
    ensures UniqueIds(RemoveId(s, key))
  {
    if s != [] {
      var tail := s[1..];
      assert UniqueIds(tail);
      RemoveIdKeepsUnique(tail, key);
      if !HasId(s[0], key) {
        var r := RemoveId(tail, key);
        RemoveIdMembers(tail, key);
        forall x | x in r ensures x.id != s[0].id {
          var j :| 0 <= j < |tail| && tail[j] == x;
          assert s[j + 1] == x;
        }
      }
    }
  }

  /** With unique ids, no record other than the one at `k` has its id. */
  lemma OnlyMatchAt(s: seq<Student>, key: Value, k: int)
    requires UniqueIds(s)
    requires 0 <= k < |s| && HasId(s[k], key)
    ensures NoMatch(s[..k], key) && NoMatch(s[k + 1..], key)
  {
    var before, after := s[..k], s[k + 1..];
    forall j | 0 <= j < |before| ensures !HasId(before[j], key) {
      assert before[j] == s[j];
    }
    forall j | 0 <= j < |after| ensures !HasId(after[j], key) {
      assert after[j] == s[k + 1 + j];
    }
  }

  /** With unique ids, the filter removes exactly the one matching record. */
  lemma RemoveIdUniqueAt(s: seq<Student>, key: Value, k: int)
    requires UniqueIds(s)
    requires 0 <= k < |s| && HasId(s[k], key)
    ensures RemoveId(s, key) == s[..k] + s[k + 1..]
  {
    var before, after := s[..k], s[k + 1..];
    calc {
      RemoveId(s, key);
    == { assert s == (before + [s[k]]) + after; }
      RemoveId((before + [s[k]]) + after, key);
    == { RemoveIdAppend(before + [s[k]], after, key); }
      RemoveId(before + [s[k]], key) + RemoveId(after, key);
    == { RemoveIdAppend(before, [s[k]], key); }
      RemoveId(before, key) + RemoveId([s[k]], key) + RemoveId(after, key);
    == { OnlyMatchAt(s, key, k);
         RemoveIdUnchangedIff(before, key);
         RemoveIdUnchangedIff(after, key);
         assert [s[k]][1..] == []; }
      before + [] + after;
    == { assert before + [] == before; }
      before + after;
    }
  }
}
