/** The sequential part of the file-hashing pipeline of merkle_tree/main.go:
    `hashFiles` rejecting an empty list and sorting the paths, and the tail
    of `hashFilesWithTimeout` that sorts the collected results by path and
    keeps only their hashes. The worker pool is not modelled: the results it
    delivers, in whatever order they complete, are an input. */
module Pipeline {
  import opened Hex
  import opened Sorting

  /** One worker's output: a path and the digest of that file's content. */
  datatype HashResult = HashResult(file: string, hash: seq<byte>)

  datatype Result<T> = Success(value: T) | Failure(error: string)

  /** Sort key of a path: the path itself (`sort.Strings`). */
  function Path(f: string): string
  {
    f
  }

  /** Sort key of a result: its path (`hashedFiles[i].File`). */
  function FileOf(r: HashResult): string
  {
    r.file
  }

  /** hashFiles up to the dispatch: no paths is the error
      "no files provided", otherwise the paths in ascending order. */
  function DispatchOrder(files: seq<string>): (r: Result<seq<string>>)
    ensures r.Failure? <==> |files| == 0
    ensures r.Failure? ==> r.error == "no files provided"
    ensures r.Success? ==> SortedBy(r.value, Path) && multiset(r.value) == multiset(files)
  {
    if |files| == 0 then Failure("no files provided") else Success(SortBy(files, Path))
  }

  /** The hashes of a list of results, in the list's order. */
  function Hashes(results: seq<HashResult>): seq<seq<byte>>
  {
    seq(|results|, k requires 0 <= k < |results| => results[k].hash)
  }

  /** Lines 323-331: sort the collected results by path, then append their
      hashes one by one. */
  method Aggregate(hashedFiles: seq<HashResult>) returns (data: seq<seq<byte>>)
    ensures |data| == |hashedFiles|
    ensures data == Hashes(SortBy(hashedFiles, FileOf))
  {
    var sorted := SortBy(hashedFiles, FileOf);
    data := [];
    for k := 0 to |sorted|
      invariant |data| == k
      invariant forall i :: 0 <= i < k ==> data[i] == sorted[i].hash
    {
      data := data + [sorted[k].hash];
    }
  }

  /** The results a successful run delivers for `files`, listed in the
      order of `files`: one per path, with that path's digest. */
  function ResultsFor(files: seq<string>, digestOf: string -> seq<byte>): (r: seq<HashResult>)
    ensures |r| == |files|
    ensures forall i :: 0 <= i < |files| ==> r[i].file == files[i] && r[i].hash == digestOf(files[i])
  {
    if files == [] then []
    else [HashResult(files[0], digestOf(files[0]))] + ResultsFor(files[1..], digestOf)
  }

  lemma ResultsForSorted(files: seq<string>, digestOf: string -> seq<byte>)
    requires SortedBy(files, Path)
    ensures SortedBy(ResultsFor(files, digestOf), FileOf)
  {
  }

  /** Inserting a path and then pairing paths with digests is the same as
      pairing first and inserting the result by its path. */
  lemma {:induction false} InsertCommutes(x: string, s: seq<string>, digestOf: string -> seq<byte>)
    requires SortedBy(s, Path)
    ensures SortedBy(ResultsFor(s, digestOf), FileOf)
    ensures ResultsFor(InsertBy(x, s, Path), digestOf)
         == InsertBy(HashResult(x, digestOf(x)), ResultsFor(s, digestOf), FileOf)
  {
    ResultsForSorted(s, digestOf);
    if s != [] && !StrLe(x, s[0]) {
      assert SortedBy(s[1..], Path);
      InsertCommutes(x, s[1..], digestOf);
      assert ResultsFor(s, digestOf)[1..] == ResultsFor(s[1..], digestOf);
    }
  }

  /** Sorting paths and then pairing them with digests is the same as
      sorting the pairs by path. */
  lemma {:induction false} SortCommutes(files: seq<string>, digestOf: string -> seq<byte>)
    ensures ResultsFor(SortBy(files, Path), digestOf) == SortBy(ResultsFor(files, digestOf), FileOf)
  {
    if files != [] {
      SortCommutes(files[1..], digestOf);
      InsertCommutes(files[0], SortBy(files[1..], Path), digestOf);
      assert ResultsFor(files, digestOf)[1..] == ResultsFor(files[1..], digestOf);
    }
  }

  /** Whatever order the workers finish in, the hashes handed on are one per
      path, in ascending path order: the k-th is the digest of the k-th
      path of the sorted list. */
  lemma {:induction false} CompletionOrderIrrelevant(files: seq<string>, digestOf: string -> seq<byte>,
                                                     received: seq<HashResult>)
    requires multiset(received) == multiset(ResultsFor(files, digestOf))
    ensures var sorted := SortBy(files, Path);
      && |Hashes(SortBy(received, FileOf))| == |files|
      && forall k :: 0 <= k < |files| ==> Hashes(SortBy(received, FileOf))[k] == digestOf(sorted[k])
  {
    var expected := ResultsFor(files, digestOf);
    var a, b := SortBy(received, FileOf), SortBy(expected, FileOf);
    forall x, y | x in a && y in a && FileOf(x) == FileOf(y) ensures x == y {
      assert x in multiset(expected) && y in multiset(expected);
      var i :| 0 <= i < |expected| && expected[i] == x;
      var j :| 0 <= j < |expected| && expected[j] == y;
    }
    SortedUnique(a, b, FileOf);
    SortCommutes(files, digestOf);
  }

  /** hashFiles on its success path: `received` is what the result channel
      delivered, one result per path in completion order. */
  method HashFiles(files: seq<string>, digestOf: string -> seq<byte>, received: seq<HashResult>)
    returns (r: Result<seq<seq<byte>>>)
    requires multiset(received) == multiset(ResultsFor(SortBy(files, Path), digestOf))
    ensures |files| == 0 ==> r == Failure("no files provided")
    ensures |files| > 0 ==> r.Success?
    ensures r.Success? ==>
      var sorted := SortBy(files, Path);
      && |r.value| == |files|
      && forall k :: 0 <= k < |files| ==> r.value[k] == digestOf(sorted[k])
  {
    var order := DispatchOrder(files);
    if order.Failure? {
      return Failure(order.error);
    }
    var data := Aggregate(received);
    SortCommutes(files, digestOf);
    CompletionOrderIrrelevant(files, digestOf, received);
    r := Success(data);
  }
}
