/**
 * getData/oneCoursesW3schoolsCrawling.py: its `extract_objectives` returns
 * from inside the loop instead of breaking out of it. Its `sanitize_filename`
 * ends in `n.strip("_") or "course"` instead of an `if`, which behaves the
 * same. Its other helpers are the same code as those of
 * getData/allCoursesW3schoolsCrawling.py; all are the shared ones of Cleaning
 * and Extractors.
 */
module SingleCourse {
  import opened Sequences
  import opened PyText
  import opened Extractors

  /** `extract_objectives(doc)`, in the early-return form of this file. */
  method ExtractObjectives(lists: seq<seq<string>>, allItems: seq<string>) returns (result: seq<string>)
    ensures result == Objectives(lists, allItems)
  {
    for i := 0 to |lists|
      invariant RichIndex(lists, i) == RichIndex(lists, 0)
    {
      var lis := StrippedNonBlank(lists[i]);
      if |lis| >= 2 {
        return Take(lis, ObjectivesLimit);
      }
    }
    result := Take(StrippedNonBlank(allItems), FallbackLimit);
  }
}
