/**
  The in-memory course store: the list `data` that `add_course`,
  `update_course` and `delete_course` change in place, each reporting
  success as a boolean and rewriting the whole file after a success.
 */
module GradebookStore {
  import opened Wrappers
  import opened Courses

  class Gradebook {
    /** The record list, in insertion order. */
    var data: seq<Course>
    /**
      Every list handed to `save_data`, oldest first: the file is rewritten
      in full with the last of them.
     */
    ghost var saves: seq<seq<Course>>

    /** The store as `load_data` hands it over; nothing has been saved yet. */
    constructor (loaded: seq<Course>)
      ensures data == loaded && saves == []
    {
      data := loaded;
      saves := [];
    }

    /**
      `add_course`: a course whose code is already present is refused and
      nothing changes; otherwise it is appended and the list is saved.
      Distinct codes stay distinct either way.
     */
    method AddCourse(course: Course) returns (ok: bool)
      modifies this
      ensures ok == !HasCode(old(data), course.code)
      ensures data == if ok then old(data) + [course] else old(data)
      ensures saves == if ok then old(saves) + [data] else old(saves)
      ensures CodesUnique(old(data)) ==> CodesUnique(data)
    {
      var i := 0;
      while i < |data|
        invariant 0 <= i <= |data|
        invariant data == old(data) && saves == old(saves)
        invariant forall j :: 0 <= j < i ==> data[j].code != course.code
      {
        if data[i].code == course.code {
          return false;
        }
        i := i + 1;
      }
      AppendKeepsCodesUnique(data, course);
      data := data + [course];
      saves := saves + [data];
      ok := true;
    }

    /**
      `update_course`: the first record with the code gets the fields of
      `info` written over its own and the list is saved; when no record has
      the code, nothing changes.
     */
    method UpdateCourse(code: string, info: CourseUpdate) returns (ok: bool)
      modifies this
      ensures ok == HasCode(old(data), code)
      ensures data == UpdateFirst(old(data), code, info)
      ensures saves == if ok then old(saves) + [data] else old(saves)
      ensures CodesUnique(old(data)) ==> CodesUnique(data)
    {
      ghost var unique := CodesUnique(data);
      if unique {
        UpdateKeepsCodesUnique(data, code, info);
      }
      var i := 0;
      while i < |data|
        invariant 0 <= i <= |data|
        invariant data == old(data) && saves == old(saves)
        invariant forall j :: 0 <= j < i ==> data[j].code != code
      {
        if data[i].code == code {
          data := data[i := ApplyUpdate(data[i], info)];
          saves := saves + [data];
          return true;
        }
        i := i + 1;
      }
      ok := false;
    }

    /**
      `delete_course`: the first record with the code is taken out with
      `data.remove(c)` and the list is saved; when no record has the code,
      nothing changes.
     */
    method DeleteCourse(code: string) returns (ok: bool)
      modifies this
      ensures ok == HasCode(old(data), code)
      ensures data == DeleteFirst(old(data), code)
      ensures saves == if ok then old(saves) + [data] else old(saves)
      ensures CodesUnique(old(data)) ==> CodesUnique(data) && !HasCode(data, code)
    {
      ghost var unique := CodesUnique(data);
      if unique {
        DeleteKeepsCodesUnique(data, code);
        DeleteRemovesCode(data, code);
      }
      var i := 0;
      while i < |data|
        invariant 0 <= i <= |data|
        invariant data == old(data) && saves == old(saves)
        invariant forall j :: 0 <= j < i ==> data[j].code != code
      {
        if data[i].code == code {
          var c := data[i];
          assert FirstIndex(data, code) == Some(i);
          RemoveFoundIsDeleteFirst(data, code);
          data := RemoveFirst(data, c);
          saves := saves + [data];
          return true;
        }
        i := i + 1;
      }
      ok := false;
    }
  }
}
