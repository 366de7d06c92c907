# Student gradebook course store, modelled in Dafny

The gradebook is a command-line tool that keeps a list of course records. Each record has a code, a name, a credit weight, a semester and a score. The tool adds, updates and deletes records. It writes the whole list back to its file after every successful change. It also computes a credit-weighted grade-point average, either over all records or over one semester.

This project models the in-memory store and the averages of `gradebook.py`:

- `courses.dfy` (module `Courses`) holds the `Course` record and the `CourseUpdate` argument. An update has one optional field for each key the menu can send. The module also holds the first-match lookup by code, the sparse overwrite done by `c.update(new_info)`, and Python's `list.remove`. Lemmas state what an update and a delete do to the list and to the uniqueness of codes.
- `gpa.dfy` (module `Grades`) holds the two sums, the `Gpa` specification, the accumulator loop `CalculateGpa`, the semester filter and `CalculateGpaBySemester`. Lemmas cover the bounds of a weighted mean and the behaviour of the filter.
- `store.dfy` (module `GradebookStore`) holds the class `Gradebook`. Its field `data` is the list that `add_course`, `update_course` and `delete_course` change in place. A ghost field `saves` records every list passed to `save_data`, so each method states that it saves exactly when it reports success.
- `wrappers.dfy` (module `Wrappers`) holds the `Option` type used for the update's fields.

Scores and averages are exact `real` numbers. Credits and semesters are unbounded integers, like Python's `int`.

## Model

| member | source | states |
|---|---|---|
| `Courses.ApplyUpdate` | gradebook.py:34 | Read as a dictionary, the updated record holds the update's value under every key the update has. Every other key keeps its old value, and the code never changes. |
| `Courses.FirstIndex` | gradebook.py:32-33 | The scan stops at the first record whose code matches. It finds nothing exactly when no record has the code. |
| `Courses.RemoveFirst` | gradebook.py:43 | `list.remove(x)` takes out one copy of `x`: the length drops by one and the multiset loses exactly `x`. |
| `Courses.NoChangeIsIdentity` | gradebook.py:34 | An update with every field left blank leaves the record unchanged. |
| `Courses.ApplyUpdateIdempotent` | gradebook.py:34 | Applying the same update twice gives the same record as applying it once. |
| `Courses.UpdateFirstSpec` | gradebook.py:31-37 | On a hit, only the first record with the code changes, and it becomes the updated record. All other records and the length stay the same. On a miss the list is unchanged. |
| `Courses.UpdateFirstKeepsCodes` | gradebook.py:32-36 | An update leaves the code at every position as it was. |
| `Courses.UpdateKeepsCodesUnique` | gradebook.py:31-37 | Pairwise distinct codes stay pairwise distinct after an update. |
| `Courses.RemoveFirstAt` | gradebook.py:43 | If no earlier element equals the element at `i`, then `list.remove` of that element cuts out exactly position `i`. |
| `Courses.RemoveFoundIsDeleteFirst` | gradebook.py:41-43 | `data.remove(c)`, applied to the record found by code, removes exactly that first match. |
| `Courses.DeleteFirstSpec` | gradebook.py:40-46 | A hit removes one copy of the first matching record, so the length drops by one. A miss leaves the list unchanged. |
| `Courses.DeleteKeepsCodesUnique` | gradebook.py:40-46 | Pairwise distinct codes stay pairwise distinct after a delete. |
| `Courses.DeleteRemovesCode` | gradebook.py:40-46 | When codes are distinct, no record with the deleted code remains. |
| `Courses.AppendKeepsCodesUnique` | gradebook.py:23-26 | Appending a course whose code is new keeps the codes pairwise distinct. |
| `Grades.Gpa` | gradebook.py:49-57 | The average is 0 for an empty list or a zero credit total. Otherwise it is the number that, multiplied by Σ credits, gives Σ score×credits. |
| `Grades.CalculateGpa` | gradebook.py:49-57 | The accumulator loop returns exactly `Gpa` of its input. |
| `Grades.BySemester` | gradebook.py:61 | The filter keeps only records of the given semester and is never longer than the list. |
| `Grades.BySemesterContents` | gradebook.py:61 | The filter keeps every record of the semester as many times as the list holds it, and no record of any other semester. |
| `Grades.BySemesterAppend` | gradebook.py:61 | Filtering a concatenation filters each part and keeps their order. |
| `Grades.CalculateGpaBySemester` | gradebook.py:60-62 | The semester average is `Gpa` of the order-preserving filter of that semester. |
| `Grades.TotalsAppend` | gradebook.py:54-56 | Both accumulated sums split over a concatenation. |
| `Grades.WeightedTotalBounds` | gradebook.py:54-56 | With non-negative credits and scores between lo and hi, Σ score×credits lies between lo×Σ credits and hi×Σ credits. |
| `Grades.GpaWithinScoreBounds` | gradebook.py:49-57 | With non-negative credits and a positive credit total, the average lies between any lower and upper bound on the scores. |
| `Grades.GpaExample` | gradebook.py:49-57 | Scores 8 and 6 over 3 and 1 credits average to 7.5. |
| `Grades.BySemesterOfOneSemester` | gradebook.py:60-62 | When every record is of the semester, the filter is the whole list, so the semester average equals the overall average. |
| `Grades.OtherSemesterIgnored` | gradebook.py:60-62 | Adding a record of another semester does not change a semester's average. |
| `GradebookStore.Gradebook.constructor` | gradebook.py:108 | The store starts with the loaded list and nothing saved. |
| `GradebookStore.Gradebook.AddCourse` | gradebook.py:22-28 | `ok` is true exactly when the code is new. On success the list becomes old + [course] and is saved once. On failure the list is unchanged and nothing is saved. Distinct codes stay distinct. |
| `GradebookStore.Gradebook.UpdateCourse` | gradebook.py:31-37 | `ok` is true exactly when some record has the code. The list becomes the first-match update and is saved exactly on success. Distinct codes stay distinct. |
| `GradebookStore.Gradebook.DeleteCourse` | gradebook.py:40-46 | `ok` is true exactly when some record has the code. The list becomes old[..i] + old[i+1..] for the first match `i`, and it is saved exactly on success. Distinct codes stay distinct, and the code is then gone. |

## Left out

- `load_data` and `save_data` (gradebook.py:7-19) are file and JSON I/O and are not modelled. The constructor takes the loaded list as a parameter. A save is the ghost history `saves`, with one snapshot added per save.
- The silent fallback to an empty list on a missing or corrupt file (gradebook.py:8-14) is I/O and is not modelled.
- `get_float`, `get_int`, `view_gradebook`, `print_menu` and `main` (gradebook.py:65-174) are console prompts, re-prompt loops and printing. This includes the check that a score entered at the add prompt lies in [0, 10]. `Grades.GpaWithinScoreBounds` states what that range gives for the average.
- The `int()`/`float()` parsing of text in the update path (gradebook.py:142-147) is user-input conversion, and is not modelled.
- Grades.CalculateGpa: returns the exact quotient. The source rounds it to two decimals with `round(…, 2)` on IEEE floats (gradebook.py:57), and floating-point rounding is not modelled.
- Grades.Gpa: scores are exact reals, not IEEE doubles, so accumulation rounding is not modelled.
- Courses.ApplyUpdate: models only the four keys the menu puts into `new_info` (gradebook.py:139-147). An update that carries `code` or an unknown key is not modelled.
- Records are values, not shared dictionaries. The aliasing between the `course` dictionary passed to `add_course` and the element stored in the list is not modelled.
- `list.remove` raising `ValueError` when the element is absent cannot happen in `delete_course`. `Courses.RemoveFirst` requires the element to be present.
