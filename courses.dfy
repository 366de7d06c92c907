/**
  Course records of the gradebook and the record-level operations of its store:
  looking a course up by its code, the sparse field overwrite performed by
  `update_course`, and the two ways a record leaves the list (the first match
  on a code, and Python's `list.remove`, which drops the first EQUAL element).
 */
module Courses {
  import opened Wrappers

  /** One tracked course; `code` is the key the store looks records up by. */
  datatype Course = Course(code: string, name: string, credits: int, semester: int, score: real)

  /**
    The `new_info` dictionary handed to `update_course`: each key is either
    present with its new value or absent. These four are the only keys the
    menu ever sends; `code` is never among them.
   */
  datatype CourseUpdate = CourseUpdate(
    name: Option<string>,
    credits: Option<int>,
    semester: Option<int>,
    score: Option<real>)

  /** The keys of a course record seen as a dictionary. */
  datatype Key = Code | Name | Credits | Semester | Score

  /** A dictionary value: the record's fields are strings, integers or numbers. */
  datatype Value = Text(s: string) | Int(i: int) | Number(r: real)

  /** The value stored under `k` in the record `c`. */
  function Get(c: Course, k: Key): Value {
    match k
    case Code => Text(c.code)
    case Name => Text(c.name)
    case Credits => Int(c.credits)
    case Semester => Int(c.semester)
    case Score => Number(c.score)
  }

  /** The value that `u` carries for the key `k`, if `u` has that key. */
  function Lookup(u: CourseUpdate, k: Key): Option<Value> {
    match k
    case Code => None
    case Name => if u.name.Some? then Some(Text(u.name.value)) else None
    case Credits => if u.credits.Some? then Some(Int(u.credits.value)) else None
    case Semester => if u.semester.Some? then Some(Int(u.semester.value)) else None
    case Score => if u.score.Some? then Some(Number(u.score.value)) else None
  }

  /** The update with no keys: every field is left blank at the prompt. */
  const NoChange: CourseUpdate := CourseUpdate(None, None, None, None)

  /**
    `c.update(new_info)`: read as dictionaries, the new record holds the
    update's value under every key the update has and the old value under
    every other key, so in particular the code never changes.
   */
  function ApplyUpdate(c: Course, u: CourseUpdate): (r: Course)
    ensures forall k :: Get(r, k) == if Lookup(u, k).Some? then Lookup(u, k).value else Get(c, k)
    ensures r.code == c.code
  {
    c.(name := u.name.GetOr(c.name),
       credits := u.credits.GetOr(c.credits),
       semester := u.semester.GetOr(c.semester),
       score := u.score.GetOr(c.score))
  }

  /** Some record of `s` has the code `code`. */
  predicate HasCode(s: seq<Course>, code: string) {
    exists j :: 0 <= j < |s| && s[j].code == code
  }

  /** No two records of `s` share a code: the store's key invariant. */
  predicate CodesUnique(s: seq<Course>) {
    forall i, j :: 0 <= i < j < |s| ==> s[i].code != s[j].code
  }

  /**
    The position the store's scanning loops stop at: the first record whose
    code is `code`, or None when the scan runs off the end.
   */
  function FirstIndex(s: seq<Course>, code: string): (r: Option<nat>)
    ensures r.Some? ==> r.value < |s| && s[r.value].code == code
    ensures r.Some? ==> forall j :: 0 <= j < r.value ==> s[j].code != code
    ensures r.None? <==> !HasCode(s, code)
  {
    if s == [] then None
    else if s[0].code == code then Some(0)
    else
      match FirstIndex(s[1..], code)
      case None => None
      case Some(i) => Some(i + 1)
  }

  /** The list after `update_course(data, code, new_info)`. */
  function UpdateFirst(s: seq<Course>, code: string, u: CourseUpdate): (r: seq<Course>)
  {
    match FirstIndex(s, code)
    case None => s
    case Some(i) => s[i := ApplyUpdate(s[i], u)]
  }

  /** The list after `delete_course(data, code)`: the first match is cut out. */
  function DeleteFirst(s: seq<Course>, code: string): (r: seq<Course>)
  {
    match FirstIndex(s, code)
    case None => s
    case Some(i) => s[..i] + s[i + 1..]
  }

  /**
    Python's `list.remove(x)`: drops the first element EQUAL to `x`
    (it raises when there is none, hence the precondition).
   */
  function RemoveFirst(s: seq<Course>, x: Course): (r: seq<Course>)
    requires x in s
    ensures |r| == |s| - 1
    ensures multiset(r) == multiset(s) - multiset{x}
  {
    assert s == [s[0]] + s[1..];
    if s[0] == x then s[1..] else [s[0]] + RemoveFirst(s[1..], x)
  }

  // ---------------------------------------------------------------------------
  // What the sparse update promises

  /** An update with no keys leaves the record as it was. */
  lemma NoChangeIsIdentity(c: Course)
    ensures ApplyUpdate(c, NoChange) == c
  {
  }

  /**
    Applying the same `new_info` twice is the same as applying it once:
    `dict.update` overwrites, it does not accumulate.
   */
  lemma ApplyUpdateIdempotent(c: Course, u: CourseUpdate)
    ensures ApplyUpdate(ApplyUpdate(c, u), u) == ApplyUpdate(c, u)
  {
  }

  /**
    A hit changes exactly the first record with the code, as `new_info`
    says, and no other record; the list keeps its length, and a miss leaves
    the list unchanged.
   */
  lemma UpdateFirstSpec(s: seq<Course>, code: string, u: CourseUpdate)
    ensures |UpdateFirst(s, code, u)| == |s|
    ensures !HasCode(s, code) ==> UpdateFirst(s, code, u) == s
    ensures HasCode(s, code) ==>
      var i := FirstIndex(s, code).value;
      UpdateFirst(s, code, u)[i] == ApplyUpdate(s[i], u) &&
      forall k :: 0 <= k < |s| && k != i ==> UpdateFirst(s, code, u)[k] == s[k]
  {
  }

  /** An update never changes which code sits at which position. */
  lemma UpdateFirstKeepsCodes(s: seq<Course>, code: string, u: CourseUpdate)
    ensures var r := UpdateFirst(s, code, u);
      |r| == |s| && forall k :: 0 <= k < |s| ==> r[k].code == s[k].code
  {
  }

  /** Hence the codes stay pairwise distinct across an update. */
  lemma UpdateKeepsCodesUnique(s: seq<Course>, code: string, u: CourseUpdate)
    requires CodesUnique(s)
    ensures CodesUnique(UpdateFirst(s, code, u))
  {
    UpdateFirstKeepsCodes(s, code, u);
  }

  // ---------------------------------------------------------------------------
  // What the delete promises

  /**
    `list.remove` of the element at `i` removes exactly that position when
    no earlier element is equal to it.
   */
  lemma {:induction false} RemoveFirstAt(s: seq<Course>, i: nat)
    requires i < |s|
    requires forall j :: 0 <= j < i ==> s[j] != s[i]
    ensures RemoveFirst(s, s[i]) == s[..i] + s[i + 1..]
  {
    if i > 0 {
      var t := s[1..];
      assert t[i - 1] == s[i];
      RemoveFirstAt(t, i - 1);
      assert t[..i - 1] + t[i..] == (s[..i] + s[i + 1..])[1..];
    }
  }

  /**
    The record `delete_course` finds by code is the one `data.remove(c)`
    takes out: an earlier equal record would have had the same code and
    been found first.
   */
  lemma RemoveFoundIsDeleteFirst(s: seq<Course>, code: string)
    requires HasCode(s, code)
    ensures var i := FirstIndex(s, code).value;
      s[i] in s && RemoveFirst(s, s[i]) == DeleteFirst(s, code)
  {
    var i := FirstIndex(s, code).value;
    RemoveFirstAt(s, i);
  }

  /**
    A delete on a hit takes exactly one copy of the first matching record out
    of the list, so the length drops by one; on a miss nothing changes.
   */
  lemma DeleteFirstSpec(s: seq<Course>, code: string)
    ensures !HasCode(s, code) ==> DeleteFirst(s, code) == s
    ensures HasCode(s, code) ==>
      var i := FirstIndex(s, code).value;
      |DeleteFirst(s, code)| == |s| - 1 &&
      multiset(DeleteFirst(s, code)) == multiset(s) - multiset{s[i]}
  {
    if HasCode(s, code) {
      RemoveFoundIsDeleteFirst(s, code);
    }
  }

  /** Deleting keeps the codes pairwise distinct. */
  lemma DeleteKeepsCodesUnique(s: seq<Course>, code: string)
    requires CodesUnique(s)
    ensures CodesUnique(DeleteFirst(s, code))
  {
    if HasCode(s, code) {
      var i := FirstIndex(s, code).value;
      var r := DeleteFirst(s, code);
      forall a, b | 0 <= a < b < |r| ensures r[a].code != r[b].code {
        var a' := if a < i then a else a + 1;
        var b' := if b < i then b else b + 1;
        assert r[a] == s[a'] && r[b] == s[b'];
      }
    }
  }

  /** With distinct codes, a delete leaves no record with that code behind. */
  lemma DeleteRemovesCode(s: seq<Course>, code: string)
    requires CodesUnique(s)
    ensures !HasCode(DeleteFirst(s, code), code)
  {
    if HasCode(s, code) {
      var i := FirstIndex(s, code).value;
      var r := DeleteFirst(s, code);
      forall k | 0 <= k < |r| ensures r[k].code != code {
        var k' := if k < i then k else k + 1;
        assert r[k] == s[k'];
      }
    }
  }

  // ---------------------------------------------------------------------------
  // What the add promises

  /** Appending a course whose code is new keeps the codes pairwise distinct. */
  lemma AppendKeepsCodesUnique(s: seq<Course>, c: Course)
    requires !HasCode(s, c.code)
    ensures CodesUnique(s) ==> CodesUnique(s + [c])
  {
    if CodesUnique(s) {
      var r := s + [c];
      forall a, b | 0 <= a < b < |r| ensures r[a].code != r[b].code {
        if b == |s| {
          assert r[a] == s[a];
        }
      }
    }
  }
}
