/**
 The output step `save_to_excel` (prog.py:67-89): an empty article list is
 refused, otherwise the file name is made collision-free by trying
 `filename`, then `base_1ext`, `base_2ext`, … and the first free one is
 written.

 The filesystem is abstracted: `os.path.exists` is membership in the finite
 set `existing`, `os.path.splitext` is a split `(base, ext)` with
 `base + ext == filename`, and the spreadsheet write either succeeds or
 raises (the flag `writeSucceeds`).
 */
module Export {
  import opened Wrappers
  import opened Decimal
  import opened Records

  /**
   The name tried at round `k`: the base name, an underscore, the counter in
   decimal and the extension. The counter reads back from the name.
   */
  function Candidate(base: string, ext: string, k: nat): (name: string)
    ensures |base| + 1 + |ext| < |name|
    ensures name[..|base|] == base && name[|base|] == '_' && name[|name| - |ext|..] == ext
    ensures AllDigits(name[|base| + 1..|name| - |ext|]) && DigitsToNat(name[|base| + 1..|name| - |ext|]) == k
  {
    var name := base + "_" + NatToString(k) + ext;
    assert name[|base| + 1..|name| - |ext|] == NatToString(k);
    DigitsToNatOfNatToString(k);
    name
  }

  /** Different counters give different names. */
  lemma CandidateInjective(base: string, ext: string)
    ensures forall j: nat, k: nat :: Candidate(base, ext, j) == Candidate(base, ext, k) ==> j == k
  {}

  /** A numbered name is never the original name: it is strictly longer. */
  lemma CandidateIsNotOriginal(base: string, ext: string, k: nat)
    ensures Candidate(base, ext, k) != base + ext
  {}

  /**
   When the original name and the first `n` numbered names are all taken,
   there are more than `n` existing paths: the search cannot go on forever.
   */
  lemma {:induction false} TakenBound(existing: set<string>, base: string, ext: string, n: nat)
    requires base + ext in existing
    requires forall j: nat :: 1 <= j <= n ==> Candidate(base, ext, j) in existing
    ensures n + 1 <= |existing|
    decreases n
  {
    if n > 0 {
      var last := Candidate(base, ext, n);
      var rest := existing - {last};
      CandidateIsNotOriginal(base, ext, n);
      CandidateInjective(base, ext);
      TakenBound(rest, base, ext, n - 1);
    }
  }

  /** `name` is what the search must return: free, and the first free name in trial order. */
  ghost predicate IsFirstFree(existing: set<string>, filename: string, base: string, ext: string, name: string) {
    && name !in existing
    && (filename !in existing ==> name == filename)
    && (filename in existing ==>
          exists k: nat :: 1 <= k && name == Candidate(base, ext, k) &&
            forall j: nat :: 1 <= j < k ==> Candidate(base, ext, j) in existing)
  }

  /**
   The `while os.path.exists(new_filename)` loop: the name returned is free,
   is `filename` itself when that is free, and is otherwise the numbered name
   with the smallest free counter; the extension is kept at the end.
   */
  method FreshName(existing: set<string>, filename: string, base: string, ext: string) returns (name: string)
    requires base + ext == filename
    ensures name !in existing
    ensures filename !in existing ==> name == filename
    ensures filename in existing ==>
              exists k: nat :: 1 <= k && name == Candidate(base, ext, k) &&
                forall j: nat :: 1 <= j < k ==> Candidate(base, ext, j) in existing
    ensures base <= name && |ext| <= |name| && name[|name| - |ext|..] == ext
  {
    var counter: nat := 1;
    name := filename;
    while name in existing
      invariant 1 <= counter <= |existing| + 1
      invariant counter == 1 ==> name == filename
      invariant counter > 1 ==> filename in existing && name == Candidate(base, ext, counter - 1)
      invariant forall j: nat :: 1 <= j < counter - 1 ==> Candidate(base, ext, j) in existing
      decreases |existing| + 1 - counter
    {
      TakenBound(existing, base, ext, counter - 1);
      name := Candidate(base, ext, counter);
      counter := counter + 1;
    }
  }

  /** The search result is unique: at most one name is the first free one. */
  lemma FirstFreeUnique(existing: set<string>, filename: string, base: string, ext: string, n1: string, n2: string)
    requires IsFirstFree(existing, filename, base, ext, n1)
    requires IsFirstFree(existing, filename, base, ext, n2)
    ensures n1 == n2
  {}

  /**
   Saving twice to the same free name never overwrites: once `filename` exists,
   the next save goes to `base_1ext` if that is free.
   */
  lemma SecondSaveIsNumbered(existing: set<string>, filename: string, base: string, ext: string)
    requires base + ext == filename
    requires Candidate(base, ext, 1) !in existing
    ensures IsFirstFree(existing + {filename}, filename, base, ext, Candidate(base, ext, 1))
  {}

  /**
   `save_to_excel(articles, filename)`: nothing is written and `None` comes
   back for an empty list or a failed write; otherwise the articles go to the
   first free name, which is returned.
   */
  method SaveToExcel(articles: seq<Article>, existing: set<string>, filename: string, base: string, ext: string,
                     writeSucceeds: bool)
    returns (saved: Option<string>)
    requires base + ext == filename
    ensures |articles| == 0 ==> saved.None?
    ensures !writeSucceeds ==> saved.None?
    ensures 0 < |articles| && writeSucceeds ==> saved.Some? && IsFirstFree(existing, filename, base, ext, saved.value)
  {
    if |articles| == 0 {
      return None;
    }
    var name := FreshName(existing, filename, base, ext);
    if !writeSucceeds {
      return None;
    }
    return Some(name);
  }
}
