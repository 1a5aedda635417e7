/** `BackupUtility.Core.Models`: the outcome of copying one file, the
    summary of a directory's outcomes, and the running progress of a backup. */
module Models {
  import opened Wrappers
  import opened Primitives
  import opened Text

  /** A thrown exception, known by the text its `ToString` gives. */
  datatype Exception = Exception(text: string)

  /** `'{source}' => '{dest}': `, the head both result texts share. */
  function Header(sourcePath: string, destPath: string): string
  {
    "'" + sourcePath + "' => '" + destPath + "': "
  }

  /** `BackupFileResult`; the constructor's default `e = null` is `None`. */
  datatype BackupFileResult = BackupFileResult(sourcePath: string, destPath: string, exception: Option<Exception>) {

    predicate Success()
    {
      exception.None?
    }

    /** The header, then the exception's text; a null exception prints as
        nothing. */
    function ToString(): (s: string)
      ensures |s| >= |Header(sourcePath, destPath)| && s[..|Header(sourcePath, destPath)|] == Header(sourcePath, destPath)
      ensures exception.Some? ==> s[|Header(sourcePath, destPath)|..] == exception.value.text
    {
      var detail := if exception.Some? then exception.value.text else "";
      var s := Header(sourcePath, destPath) + detail;
      assert s[..|Header(sourcePath, destPath)|] == Header(sourcePath, destPath);
      s
    }
  }

  /** Since an exception's text is never empty, a result's text is the bare
      header exactly when the copy succeeded. */
  lemma FileResultTextShowsSuccess(r: BackupFileResult)
    requires r.exception.Some? ==> r.exception.value.text != ""
    ensures r.Success() <==> r.ToString() == Header(r.sourcePath, r.destPath)
  {
    if !r.Success() {
      assert |r.ToString()| > |Header(r.sourcePath, r.destPath)|;
    }
  }

  /** The number of successful results. */
  function SuccessCount(results: seq<BackupFileResult>): nat
  {
    if |results| == 0 then 0
    else (if results[0].Success() then 1 else 0) + SuccessCount(results[1..])
  }

  /** The success count is at most the total, reaches it exactly when
      every copy succeeded, and is zero exactly when none did. */
  lemma {:induction false} SuccessCountBounds(results: seq<BackupFileResult>)
    ensures SuccessCount(results) <= |results|
    ensures SuccessCount(results) == |results| <==> forall i :: 0 <= i < |results| ==> results[i].Success()
    ensures SuccessCount(results) == 0 <==> forall i :: 0 <= i < |results| ==> !results[i].Success()
  {
    if |results| > 0 {
      SuccessCountBounds(results[1..]);
      assert forall i :: 1 <= i < |results| ==> results[i] == results[1..][i - 1];
    }
  }

  /** The number of failed results. */
  function FailureCount(results: seq<BackupFileResult>): (n: nat)
    ensures n <= |results|
    ensures n == 0 <==> forall i :: 0 <= i < |results| ==> results[i].Success()
  {
    if |results| == 0 then 0
    else (if results[0].Success() then 0 else 1) + FailureCount(results[1..])
  }

  /** `BackupDirResult`. */
  datatype BackupDirResult = BackupDirResult(sourcePath: string, destPath: string, results: seq<BackupFileResult>) {

    /** Every result is counted once, as a success or as a failure. */
    function TotalResults(): (n: nat)
      ensures n == SuccessCount(results) + FailureCount(results)
    {
      CountsAddUp(results);
      |results|
    }

    function SuccessResults(): (n: nat)
      ensures n <= TotalResults()
      ensures n == TotalResults() <==> forall i :: 0 <= i < |results| ==> results[i].Success()
    {
      SuccessCountBounds(results);
      SuccessCount(results)
    }

    function FailedResults(): (n: nat)
      ensures n <= TotalResults()
      ensures n == 0 <==> forall i :: 0 <= i < |results| ==> results[i].Success()
    {
      FailureCount(results)
    }

    /** The header, then `{success}/{total}`: the text starts with the
        header and ends with the total's digits. */
    function ToString(): (s: string)
      ensures |s| > |Header(sourcePath, destPath)| && s[..|Header(sourcePath, destPath)|] == Header(sourcePath, destPath)
      ensures |s| > |NatToString(TotalResults())| && s[|s| - |NatToString(TotalResults())|..] == NatToString(TotalResults())
    {
      var s := Header(sourcePath, destPath) + NatToString(SuccessResults()) + "/" + NatToString(TotalResults());
      assert s[..|Header(sourcePath, destPath)|] == Header(sourcePath, destPath);
      assert s[|s| - |NatToString(TotalResults())|..] == NatToString(TotalResults());
      s
    }
  }

  /** Every result is either a success or a failure. */
  lemma {:induction false} CountsAddUp(results: seq<BackupFileResult>)
    ensures SuccessCount(results) + FailureCount(results) == |results|
  {
    if |results| > 0 {
      CountsAddUp(results[1..]);
    }
  }

  /** The success and failure counts of a directory add up to its total. */
  lemma DirCountsAddUp(d: BackupDirResult)
    ensures d.SuccessResults() + d.FailedResults() == d.TotalResults()
  {
    CountsAddUp(d.results);
  }

  lemma {:induction false} SuccessCountConcat(a: seq<BackupFileResult>, b: seq<BackupFileResult>)
    ensures SuccessCount(a + b) == SuccessCount(a) + SuccessCount(b)
  {
    if |a| > 0 {
      assert (a + b)[1..] == a[1..] + b;
      SuccessCountConcat(a[1..], b);
    } else {
      assert a + b == b;
    }
  }

  /** The counts do not depend on the order in which the file copies
      finished. */
  lemma {:induction false} SuccessCountPermutation(a: seq<BackupFileResult>, b: seq<BackupFileResult>)
    requires multiset(a) == multiset(b)
    ensures SuccessCount(a) == SuccessCount(b)
    decreases |a|
  {
    if |a| == 0 {
      assert |b| == |multiset(b)| == 0;
    } else {
      assert a[0] in multiset(b);
      var j :| 0 <= j < |b| && b[j] == a[0];
      RemoveMatching(a, b, j);
      SuccessCountPermutation(a[1..], b[..j] + b[j + 1..]);
      SuccessCountRemove(b, j);
    }
  }

  /** Taking the first element of `a` and a matching element of `b` out
      of two permutations leaves two permutations. */
  lemma RemoveMatching(a: seq<BackupFileResult>, b: seq<BackupFileResult>, j: nat)
    requires multiset(a) == multiset(b) && |a| > 0 && j < |b| && b[j] == a[0]
    ensures multiset(a[1..]) == multiset(b[..j] + b[j + 1..])
  {
    var rest := b[..j] + b[j + 1..];
    assert b == b[..j] + [b[j]] + b[j + 1..];
    assert a == [a[0]] + a[1..];
    assert multiset(b) == multiset(rest) + multiset([a[0]]);
    assert multiset(a) == multiset(a[1..]) + multiset([a[0]]);
    assert multiset(a[1..]) == multiset(a) - multiset([a[0]]);
  }

  /** The success count of `b` counts `b[j]` and the rest. */
  lemma SuccessCountRemove(b: seq<BackupFileResult>, j: nat)
    requires j < |b|
    ensures SuccessCount(b) == (if b[j].Success() then 1 else 0) + SuccessCount(b[..j] + b[j + 1..])
  {
    var before, after := b[..j], b[j + 1..];
    SplitAround(b, j);
    SuccessCountConcat(before, [b[j]] + after);
    SuccessCountCons(b[j], after);
    SuccessCountConcat(before, after);
  }

  lemma SplitAround<T>(s: seq<T>, j: nat)
    requires j < |s|
    ensures s == s[..j] + ([s[j]] + s[j + 1..])
  {
  }

  lemma SuccessCountCons(x: BackupFileResult, s: seq<BackupFileResult>)
    ensures SuccessCount([x] + s) == (if x.Success() then 1 else 0) + SuccessCount(s)
  {
    assert ([x] + s)[1..] == s;
  }

  /** What `ToString` gives for a directory, read back: the two numbers
      after the last space. */
  function ParseDirCounts(text: string): Option<(nat, nat)>
  {
    var space := LastIndexOf(text, ' ');
    var parts := Split(text[space + 1..], '/');
    if |parts| == 2 && AllDigits(parts[0]) && AllDigits(parts[1])
    then Some((ParseNat(parts[0]), ParseNat(parts[1])))
    else None
  }

  /** The counts a directory's text shows are its success count and its
      total, whatever its paths. */
  lemma DirResultTextRoundTrip(d: BackupDirResult)
    ensures ParseDirCounts(d.ToString()) == Some((d.SuccessResults(), d.TotalResults()))
  {
    var head := "'" + d.sourcePath + "' => '" + d.destPath + "':";
    var succ, total := NatToString(d.SuccessResults()), NatToString(d.TotalResults());
    assert d.ToString() == head + [' '] + (succ + ['/'] + total);
    CountsTextParses(head, d.SuccessResults(), d.TotalResults());
  }

  /** Any head, a space, then `{m}/{n}` reads back as `m` and `n`. */
  lemma CountsTextParses(head: string, m: nat, n: nat)
    ensures ParseDirCounts(head + [' '] + (NatToString(m) + ['/'] + NatToString(n))) == Some((m, n))
  {
    var succ, total := NatToString(m), NatToString(n);
    var counts := succ + ['/'] + total;
    var text := head + [' '] + counts;
    DigitsHaveNo(succ, ' ');
    DigitsHaveNo(total, ' ');
    LastIndexOfConcat(head, counts, ' ');
    assert text[|head| + 1..] == counts;
    CountsSplit(succ, total);
    ParseNatToString(m);
    ParseNatToString(n);
  }

  /** Two digit strings joined by `/` split back into the two. */
  lemma CountsSplit(succ: string, total: string)
    requires AllDigits(succ) && AllDigits(total)
    ensures Split(succ + ['/'] + total, '/') == [succ, total]
  {
    DigitsHaveNo(succ, '/');
    DigitsHaveNo(total, '/');
    SplitConcat(succ, total, '/');
    SplitWithoutSeparator(succ, '/');
    SplitWithoutSeparator(total, '/');
  }

  lemma DigitsHaveNo(s: string, c: char)
    requires AllDigits(s) && !IsDigit(c)
    ensures c !in s
  {
  }

  /** `BackupProgress`. `Elapsed` is kept as a tick count. `advances` is
      the sequence of byte counts passed to `Advance` so far. */
  class BackupProgress {
    var bytes: Int64
    var files: Int32
    var elapsed: Int64
    var done: bool
    ghost var advances: seq<int>

    /** The counters hold the number of advances and the sum of their byte
        counts, both wrapped as unchecked `int` and `long` arithmetic would. */
    ghost predicate Valid()
      reads this
    {
      files == Wrap32(|advances|) && bytes == Wrap64(Sum(advances))
    }

    constructor ()
      ensures Valid()
      ensures bytes == 0 && files == 0 && elapsed == 0 && !done && advances == []
    {
      bytes := 0;
      files := 0;
      elapsed := 0;
      done := false;
      advances := [];
    }

    method Advance(bytes: Int64, elapsed: Int64)
      requires Valid()
      modifies this
      ensures Valid()
      ensures advances == old(advances) + [bytes as int]
      ensures this.bytes == Wrap64(old(this.bytes) + bytes) && files == Wrap32(old(files) + 1)
      ensures this.elapsed == elapsed && done == old(done)
    {
      Wrap64Add(Sum(advances), bytes as int);
      Wrap32Add(|advances|, 1);
      assert (advances + [bytes as int])[..|advances|] == advances;
      this.bytes := Wrap64(this.bytes + bytes);
      files := Wrap32(files + 1);
      this.elapsed := elapsed;
      advances := advances + [bytes as int];
    }

    method Finish()
      modifies this
      ensures done
      ensures bytes == old(bytes) && files == old(files) && elapsed == old(elapsed) && advances == old(advances)
    {
      done := true;
    }
  }

  /** The sum of the byte counts. */
  function Sum(s: seq<int>): int
  {
    if |s| == 0 then 0 else Sum(s[..|s| - 1]) + s[|s| - 1]
  }
}
