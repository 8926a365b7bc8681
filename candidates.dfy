/**
 The candidate filter of the file cleaner: from one directory listing, keep the
 entry names that end with the requested extension, in listing order.
 The test is a literal, case-sensitive suffix comparison, so an empty
 extension keeps every entry.
 */
module Candidates {

  /** `s.endsWith(suffix)`: the last |suffix| characters of `s` are `suffix`. */
  predicate EndsWith(s: string, suffix: string)
  {
    |suffix| <= |s| && s[|s| - |suffix|..] == suffix
  }

  /** `files.filter(file => file.endsWith(extension))` */
  function Filter(files: seq<string>, extension: string): (r: seq<string>)
    ensures |r| <= |files|
    ensures forall x :: x in r <==> x in files && EndsWith(x, extension)
  {
    if files == [] then []
    else if EndsWith(files[0], extension) then [files[0]] + Filter(files[1..], extension)
    else Filter(files[1..], extension)
  }

  /** Filtering a listing split in two filters each part and keeps the parts in order:
      together with FilterSingle this fixes the result as the order-preserving selection. */
  lemma {:induction false} FilterAppend(a: seq<string>, b: seq<string>, extension: string)
    ensures Filter(a + b, extension) == Filter(a, extension) + Filter(b, extension)
  {
    if a == [] {
      assert a + b == b;
    } else {
      assert (a + b)[1..] == a[1..] + b;
      FilterAppend(a[1..], b, extension);
    }
  }

  /** A single entry is kept exactly when it ends with the extension. */
  lemma FilterSingle(x: string, extension: string)
    ensures Filter([x], extension) == if EndsWith(x, extension) then [x] else []
  {
    assert [x][1..] == [];
  }

  /** Nothing is added, dropped or merged: every matching entry occurs in the result
      as often as in the listing, every other entry not at all. */
  lemma {:induction false} FilterCount(files: seq<string>, extension: string, x: string)
    ensures multiset(Filter(files, extension))[x] == if EndsWith(x, extension) then multiset(files)[x] else 0
  {
    if files != [] {
      assert files == [files[0]] + files[1..];
      FilterCount(files[1..], extension, x);
    }
  }

  /** Every name ends with the empty string. */
  lemma EndsWithEmpty(s: string)
    ensures EndsWith(s, "")
  {
    assert s[|s|..] == "";
  }

  /** An empty extension keeps the whole listing unchanged. */
  lemma {:induction false} FilterEmptyExtension(files: seq<string>)
    ensures Filter(files, "") == files
  {
    if files != [] {
      EndsWithEmpty(files[0]);
      FilterEmptyExtension(files[1..]);
    }
  }

  /** The filter finds nothing exactly when no entry of the listing ends with the extension. */
  lemma FilterEmptyIff(files: seq<string>, extension: string)
    ensures Filter(files, extension) == [] <==> forall x :: x in files ==> !EndsWith(x, extension)
  {
    if Filter(files, extension) != [] {
      assert Filter(files, extension)[0] in Filter(files, extension);
    }
  }
}
