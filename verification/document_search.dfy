/**
 * src/document_search.py: one collection per extracted document, named
 * after its relative path and filled with its normalised chunks; the best
 * distance of each document to the request; and the ranking of documents
 * by that distance.
 *
 * Distances are reals under their usual total order. Paths print the POSIX
 * way, components joined by `/`.
 */
module DocumentSearch {
  import opened PyText
  import opened PyDict
  import opened Chroma
  import opened TextExtration
  import ChunkProcessing

  // ---------------------------------------------------------------------
  // Collection names
  // ---------------------------------------------------------------------

  /** The class `[/\\]`. */
  predicate IsSep(c: char) {
    c == '/' || c == '\\'
  }

  /** `sep.join(parts)` for a one-character separator. */
  function JoinWith(sep: char, parts: seq<string>): string {
    if |parts| == 0 then ""
    else if |parts| == 1 then parts[0]
    else JoinWith(sep, parts[..|parts| - 1]) + [sep] + parts[|parts| - 1]
  }

  /** `str(path)` for a relative path: its components joined by `/`, and
      `.` for the empty path. */
  function PathString(p: Path): string {
    if p == [] then "." else JoinWith('/', p)
  }

  /** `re.split(r'[/\\]', s)`: the pieces between separators, empty pieces
      included, so there is always at least one. */
  function SplitSep(s: string): (parts: seq<string>)
    ensures |parts| >= 1
  {
    if s == [] then [""]
    else
      var parts := SplitSep(s[..|s| - 1]);
      var c := s[|s| - 1];
      if IsSep(c) then parts + [""]
      else parts[..|parts| - 1] + [parts[|parts| - 1] + [c]]
  }

  /** The name `create_collection` gives: `'.'.join(re.split(r'[/\\]', s))`.
      It is the path string with every separator turned into a dot. */
  function CollectionName(s: string): (r: string)
    ensures r == ReplaceSeps(s)
  {
    SplitJoinDots(s);
    JoinWith('.', SplitSep(s))
  }

  /** Every separator of `s` replaced by a dot, character by character. */
  function ReplaceSeps(s: string): (r: string)
    ensures |r| == |s|
    ensures forall i :: 0 <= i < |s| ==> r[i] == if IsSep(s[i]) then '.' else s[i]
  {
    if s == [] then []
    else ReplaceSeps(s[..|s| - 1]) + [if IsSep(s[|s| - 1]) then '.' else s[|s| - 1]]
  }

  lemma JoinWithExtendLast(sep: char, parts: seq<string>, c: char)
    requires |parts| >= 1
    ensures JoinWith(sep, parts[..|parts| - 1] + [parts[|parts| - 1] + [c]]) == JoinWith(sep, parts) + [c]
  {
    var q := parts[..|parts| - 1] + [parts[|parts| - 1] + [c]];
    if |parts| >= 2 {
      assert q[..|q| - 1] == parts[..|parts| - 1];
    }
  }

  /** Splitting at the separators and joining with dots replaces each
      separator by one dot: the name is as long as the path string, holds no
      separator, and differs from it only where it had one. */
  lemma {:induction false} SplitJoinDots(s: string)
    ensures JoinWith('.', SplitSep(s)) == ReplaceSeps(s)
  {
    if s != [] {
      var init := s[..|s| - 1];
      var c := s[|s| - 1];
      SplitJoinDots(init);
      var parts := SplitSep(init);
      if IsSep(c) {
        assert SplitSep(s) == parts + [""];
        assert JoinWith('.', parts + [""]) == JoinWith('.', parts) + ['.'] by {
          assert (parts + [""])[..|parts|] == parts;
        }
        assert ReplaceSeps(s) == ReplaceSeps(init) + ['.'];
      } else {
        assert SplitSep(s) == parts[..|parts| - 1] + [parts[|parts| - 1] + [c]];
        JoinWithExtendLast('.', parts, c);
        assert ReplaceSeps(s) == ReplaceSeps(init) + [c];
      }
    }
  }

  /** A piece without separators after a `/` becomes one more piece. */
  lemma {:induction false} SplitSepAppend(x: string, w: string)
    requires forall i :: 0 <= i < |w| ==> !IsSep(w[i])
    ensures SplitSep(x + "/" + w) == SplitSep(x) + [w]
    decreases |w|
  {
    var t := x + "/" + w;
    if w == [] {
      assert t[..|t| - 1] == x;
    } else {
      var w' := w[..|w| - 1];
      SplitSepAppend(x, w');
      assert t[..|t| - 1] == x + "/" + w';
      assert w' + [w[|w| - 1]] == w;
    }
  }

  /** A string without separators is one piece. */
  lemma {:induction false} SplitSepPlain(w: string)
    requires forall i :: 0 <= i < |w| ==> !IsSep(w[i])
    ensures SplitSep(w) == [w]
    decreases |w|
  {
    if w != [] {
      var w' := w[..|w| - 1];
      SplitSepPlain(w');
      assert w' + [w[|w| - 1]] == w;
    }
  }

  /** For a path whose components hold no separator, `re.split` takes
      `str(path)` apart into exactly its components. */
  lemma {:induction false} PathStringSplits(p: Path)
    requires p != []
    requires forall k, i :: 0 <= k < |p| && 0 <= i < |p[k]| ==> !IsSep(p[k][i])
    ensures SplitSep(PathString(p)) == p
    decreases |p|
  {
    if |p| == 1 {
      SplitSepPlain(p[0]);
    } else {
      var init, last := p[..|p| - 1], p[|p| - 1];
      assert forall k :: 0 <= k < |init| ==> init[k] == p[k];
      PathStringSplits(init);
      assert JoinWith('/', p) == JoinWith('/', init) + "/" + last;
      assert forall i :: 0 <= i < |last| ==> !IsSep(last[i]);
      SplitSepAppend(PathString(init), last);
      assert init + [last] == p;
    }
  }

  /** So the collection of such a path is named by its components joined
      with dots. */
  lemma CollectionNameOfPath(p: Path)
    requires p != []
    requires forall k, i :: 0 <= k < |p| && 0 <= i < |p[k]| ==> !IsSep(p[k][i])
    ensures CollectionName(PathString(p)) == JoinWith('.', p)
  {
    PathStringSplits(p);
  }

  /** Two different relative paths can get the same collection name, so
      their chunks land in one collection: `a/b` and `a.b` both give `a.b`. */
  lemma NamesCanCollide(a: string, b: string)
    requires forall i :: 0 <= i < |a| ==> !IsSep(a[i])
    requires forall i :: 0 <= i < |b| ==> !IsSep(b[i])
    ensures PathString([a, b]) != PathString([a + "." + b])
    ensures CollectionName(PathString([a, b])) == CollectionName(PathString([a + "." + b]))
  {
    var s := PathString([a, b]);
    var t := PathString([a + "." + b]);
    assert [a, b][..1] == [a];
    assert JoinWith('/', [a]) == a;
    assert s == a + "/" + b;
    assert t == a + "." + b;
    assert s[|a|] != t[|a|];
    assert ReplaceSeps(s) == ReplaceSeps(t);
  }

  // ---------------------------------------------------------------------
  // Ids
  // ---------------------------------------------------------------------

  predicate IsDigit(c: char) {
    '0' <= c <= '9'
  }

  function DigitChar(d: nat): (c: char)
    requires d < 10
    ensures IsDigit(c) && c as int - '0' as int == d
  {
    ('0' as int + d) as char
  }

  /** `f'{x}'`: the decimal digits of `x`, without leading zeros. */
  function NatToString(x: nat): (s: string)
    ensures |s| >= 1 && forall i :: 0 <= i < |s| ==> IsDigit(s[i])
    ensures s[0] == '0' ==> x == 0
  {
    if x < 10 then [DigitChar(x)] else NatToString(x / 10) + [DigitChar(x % 10)]
  }

  function DigitValue(c: char): nat
    requires IsDigit(c)
  {
    c as int - '0' as int
  }

  /** `int(s)` for a string of digits. */
  function ParseNat(s: string): nat
    requires forall i :: 0 <= i < |s| ==> IsDigit(s[i])
  {
    if s == [] then 0
    else ParseNat(s[..|s| - 1]) * 10 + DigitValue(s[|s| - 1])
  }

  /** Reading an id back gives its number. */
  lemma {:induction false} ParseNatToString(x: nat)
    ensures ParseNat(NatToString(x)) == x
  {
    if x >= 10 {
      ParseNatToString(x / 10);
      var s := NatToString(x);
      assert s[..|s| - 1] == NatToString(x / 10);
    }
  }

  /** `[f'{x}' for x in range(n)]`. */
  function Ids(n: nat): (ids: seq<string>)
    ensures |ids| == n
    ensures forall i :: 0 <= i < n ==> ids[i] == NatToString(i)
  {
    if n == 0 then [] else Ids(n - 1) + [NatToString(n - 1)]
  }

  /** The ids of one upsert are pairwise different. */
  lemma IdsDistinct(n: nat)
    ensures forall i, j :: 0 <= i < j < n ==> Ids(n)[i] != Ids(n)[j]
  {
    forall i, j | 0 <= i < j < n ensures Ids(n)[i] != Ids(n)[j] {
      ParseNatToString(i);
      ParseNatToString(j);
    }
  }

  // ---------------------------------------------------------------------
  // The upsert payload
  // ---------------------------------------------------------------------

  /** The normalised chunks, one per chunk. */
  function NormalizeEach(kit: Toolkit, chunks: seq<string>): (ds: seq<string>)
    ensures |ds| == |chunks|
    ensures forall i :: 0 <= i < |chunks| ==> ds[i] == Normalize(kit, chunks[i])
  {
    if chunks == [] then []
    else NormalizeEach(kit, chunks[..|chunks| - 1]) + [Normalize(kit, chunks[|chunks| - 1])]
  }

  /** `[{'path': str(relative_path)} for _ in range(n)]`, the values only. */
  function Metadatas(path: string, n: nat): (ms: seq<string>)
    ensures |ms| == n && forall i :: 0 <= i < n ==> ms[i] == path
  {
    if n == 0 then [] else Metadatas(path, n - 1) + [path]
  }

  /** The collection `create_collection(text_chunks, relative_path)` fills:
      named after the path, one normalised chunk per chunk in order, ids
      "0" to "n-1", and the path string as every metadata. */
  function Upserted(kit: Toolkit, textChunks: seq<string>, relativePath: Path): (c: Collection)
    ensures c.name == ReplaceSeps(PathString(relativePath))
    ensures |c.documents| == |c.ids| == |c.metadatas| == |textChunks|
    ensures forall i, j :: 0 <= i < j < |c.ids| ==> c.ids[i] != c.ids[j]
  {
    IdsDistinct(|textChunks|);
    Collection(
      CollectionName(PathString(relativePath)),
      NormalizeEach(kit, textChunks),
      Ids(|textChunks|),
      Metadatas(PathString(relativePath), |textChunks|))
  }

  // ---------------------------------------------------------------------
  // Ranking
  // ---------------------------------------------------------------------

  /** Non-decreasing in distance. */
  predicate Sorted<K>(s: seq<(K, real)>) {
    forall i, j :: 0 <= i < j < |s| ==> s[i].1 <= s[j].1
  }

  /** Puts `x` into the sorted `s` after every entry whose distance is at
      most that of `x`. */
  function Insert<K>(x: (K, real), s: seq<(K, real)>): (r: seq<(K, real)>)
    requires Sorted(s)
    ensures |r| == |s| + 1
    ensures Sorted(r)
    ensures multiset(r) == multiset(s) + multiset{x}
    ensures forall y :: y in r ==> y == x || y in s
  {
    if s == [] || s[|s| - 1].1 <= x.1 then s + [x]
    else
      var init := s[..|s| - 1];
      var last := s[|s| - 1];
      assert s == init + [last];
      var r0 := Insert(x, init);
      assert forall y :: y in init ==> y.1 <= last.1;
      assert forall i :: 0 <= i < |r0| ==> r0[i] in r0 && r0[i].1 <= last.1;
      r0 + [last]
  }

  /** `sorted(items, key=lambda x: x[1])`, an insertion sort that, like
      Python's, keeps entries of equal distance in their input order. */
  function SortByDistance<K>(items: seq<(K, real)>): (s: seq<(K, real)>)
    ensures |s| == |items|
    ensures Sorted(s)
    ensures multiset(s) == multiset(items)
  {
    if items == [] then []
    else
      var init := items[..|items| - 1];
      assert items == init + [items[|items| - 1]];
      Insert(items[|items| - 1], SortByDistance(init))
  }

  /** The entries of distance `d`, in order. */
  function WithDistance<K>(s: seq<(K, real)>, d: real): seq<(K, real)> {
    if s == [] then []
    else WithDistance(s[..|s| - 1], d) + (if s[|s| - 1].1 == d then [s[|s| - 1]] else [])
  }

  lemma WithDistanceAppend<K>(s: seq<(K, real)>, x: (K, real), d: real)
    ensures WithDistance(s + [x], d) == WithDistance(s, d) + (if x.1 == d then [x] else [])
  {
    assert (s + [x])[..|s|] == s;
  }

  lemma {:induction false} InsertStable<K>(x: (K, real), s: seq<(K, real)>, d: real)
    requires Sorted(s)
    ensures WithDistance(Insert(x, s), d) == WithDistance(s, d) + (if x.1 == d then [x] else [])
  {
    if s == [] || s[|s| - 1].1 <= x.1 {
      WithDistanceAppend(s, x, d);
    } else {
      var init := s[..|s| - 1];
      var last := s[|s| - 1];
      assert s == init + [last];
      assert Sorted(init);
      assert Insert(x, s) == Insert(x, init) + [last];
      InsertStable(x, init, d);
      WithDistanceAppend(Insert(x, init), last, d);
      WithDistanceAppend(init, last, d);
    }
  }

  /** The sort is stable: the entries of any one distance come out in the
      order they went in. */
  lemma {:induction false} SortStable<K>(items: seq<(K, real)>, d: real)
    ensures WithDistance(SortByDistance(items), d) == WithDistance(items, d)
  {
    if items != [] {
      var init := items[..|items| - 1];
      SortStable(init, d);
      InsertStable(items[|items| - 1], SortByDistance(init), d);
    }
  }

  function Min(a: nat, b: nat): nat {
    if a <= b then a else b
  }

  /** `sorted(distances.items(), key=...)[:results_count]`. */
  function TopK<K>(items: seq<(K, real)>, k: nat): (r: seq<(K, real)>)
    ensures |r| == Min(k, |items|)
    ensures Sorted(r)
  {
    SortByDistance(items)[..Min(k, |items|)]
  }

  /** In a dict every entry occurs at most once. */
  lemma {:induction false} DictCountsOne<K>(s: seq<(K, real)>, y: (K, real))
    requires IsDict(s)
    ensures multiset(s)[y] <= 1
  {
    if s != [] {
      var init := s[..|s| - 1];
      var last := s[|s| - 1];
      assert s == init + [last];
      DictCountsOne(init, y);
      if y == last {
        forall i | 0 <= i < |init| ensures init[i] != y {
          assert init[i].0 != last.0;
        }
      }
    }
  }

  lemma RepeatCountsTwo<T>(t: seq<T>, i: nat, j: nat)
    requires i < j < |t| && t[i] == t[j]
    ensures multiset(t)[t[i]] >= 2
  {
    assert t == t[..i] + [t[i]] + t[i + 1..j] + [t[j]] + t[j + 1..];
  }

  /** A dict stays a dict when its items are reordered. */
  lemma PermutedDict<K>(s: seq<(K, real)>, t: seq<(K, real)>)
    requires IsDict(s) && multiset(t) == multiset(s)
    ensures IsDict(t)
  {
    forall i, j | 0 <= i < j < |t| ensures t[i].0 != t[j].0 {
      if t[i] == t[j] {
        RepeatCountsTwo(t, i, j);
        DictCountsOne(s, t[i]);
      } else {
        assert t[i] in multiset(s) && t[j] in multiset(s);
      }
    }
  }

  /** Every entry of a sorted sequence past position `m` is at least as far
      as every entry before it. */
  lemma SortedSplit<K>(s: seq<(K, real)>, m: nat, x: (K, real))
    requires Sorted(s) && m <= |s| && x in s && x !in s[..m]
    ensures forall i :: 0 <= i < m ==> s[i].1 <= x.1
  {
    var j :| 0 <= j < |s| && s[j] == x;
  }

  /** A prefix of a sorted dict is a sorted dict. */
  lemma SortedDictPrefix<K>(s: seq<(K, real)>, m: nat)
    requires Sorted(s) && IsDict(s) && m <= |s|
    ensures Sorted(s[..m]) && IsDict(s[..m])
  {
    assert forall i :: 0 <= i < m ==> s[..m][i] == s[i];
  }

  /** The first `m` entries of a sorted permutation of `items` come from
      `items`, and every entry of `items` not among them is at least as far
      as each of them. */
  lemma KeptAndLeftOut<K>(items: seq<(K, real)>, s: seq<(K, real)>, m: nat)
    requires Sorted(s) && multiset(s) == multiset(items) && m <= |s|
    ensures forall x :: x in s[..m] ==> x in items
    ensures forall x, i :: x in items && x !in s[..m] && 0 <= i < m ==> s[..m][i].1 <= x.1
  {
    forall x | x in s[..m] ensures x in items {
      assert x in multiset(s);
    }
    forall x | x in items && x !in s[..m] ensures forall i :: 0 <= i < m ==> s[..m][i].1 <= x.1 {
      assert x in multiset(s);
      SortedSplit(s, m, x);
    }
  }

  /** What `extract_rel_doc_paths` ranks: min(results_count, n) entries of
      the input, each once, in non-decreasing order of distance, and no
      entry left out is closer than one kept. */
  lemma TopKRanking<K>(items: seq<(K, real)>, k: nat)
    requires IsDict(items)
    ensures var r := TopK(items, k);
      && |r| == Min(k, |items|)
      && Sorted(r)
      && IsDict(r)
      && (forall x :: x in r ==> x in items)
      && (forall x, i :: x in items && x !in r && 0 <= i < |r| ==> r[i].1 <= x.1)
  {
    var s := SortByDistance(items);
    var m := Min(k, |items|);
    PermutedDict(items, s);
    SortedDictPrefix(s, m);
    KeptAndLeftOut(items, s, m);
  }

  lemma {:induction false} WithDistancePrefix<K>(s: seq<(K, real)>, m: nat, d: real)
    requires m <= |s|
    ensures WithDistance(s[..m], d) <= WithDistance(s, d)
    decreases |s|
  {
    if m < |s| {
      var init := s[..|s| - 1];
      assert s[..m] == init[..m];
      WithDistancePrefix(init, m, d);
    } else {
      assert s[..m] == s;
    }
  }

  /** Entries of equal distance keep their input order in the ranking: those
      of distance `d` that make the cut are the first ones of distance `d` in
      the input. */
  lemma TopKStable<K>(items: seq<(K, real)>, k: nat, d: real)
    ensures WithDistance(TopK(items, k), d) <= WithDistance(items, d)
  {
    SortStable(items, d);
    WithDistancePrefix(SortByDistance(items), Min(k, |items|), d);
  }

  /** The distance of the best chunk of the document `text` at `path` to the
      request, as `find_best_chunk` reports it. */
  function DocDistance(kit: Toolkit, query: Query, request: string, chunkLength: int,
                       path: Path, text: string): real
  {
    var collection := Upserted(kit, ChunkProcessing.ChunkText(text, chunkLength), path);
    query(collection, Normalize(kit, request)).1
  }

  /** `DocDistance` as a function of a dict entry. */
  function BestDistance(kit: Toolkit, query: Query, request: string, chunkLength: int): (Path, string) -> real {
    (path, text) => DocDistance(kit, query, request, chunkLength, path, text)
  }

  /** The dict the loop of `find_documents` fills: `distances[path]` set to
      `dist` of each entry of `docs`, in turn. */
  function Distances<K(==), V>(docs: seq<(K, V)>, dist: (K, V) -> real): (d: seq<(K, real)>)
    ensures IsDict(d)
  {
    if docs == [] then []
    else
      var last := docs[|docs| - 1];
      Set(Distances(docs[..|docs| - 1], dist), last.0, dist(last.0, last.1))
  }

  lemma DistancesPrefix<K, V>(docs: seq<(K, V)>, dist: (K, V) -> real, i: nat)
    requires i < |docs|
    ensures Distances(docs[..i + 1], dist)
      == Set(Distances(docs[..i], dist), docs[i].0, dist(docs[i].0, docs[i].1))
  {
    assert docs[..i + 1][..i] == docs[..i];
  }

  /** One distance per document, in the order of `docs`, and it is the
      distance computed for that document. */
  lemma {:induction false} DistancesPerDocument<K, V>(docs: seq<(K, V)>, dist: (K, V) -> real)
    requires IsDict(docs)
    ensures var d := Distances(docs, dist);
      && Keys(d) == Keys(docs)
      && forall i :: 0 <= i < |d| ==> d[i].1 == dist(docs[i].0, docs[i].1)
  {
    if docs != [] {
      var init := docs[..|docs| - 1];
      var last := docs[|docs| - 1];
      assert docs == init + [last];
      DistancesPerDocument(init, dist);
      var d0 := Distances(init, dist);
      var v := dist(last.0, last.1);
      assert last.0 !in Keys(d0) by {
        assert forall i :: 0 <= i < |init| ==> Keys(init)[i] != last.0;
      }
      assert Distances(docs, dist) == d0 + [(last.0, v)];
      KeysSnoc(init, last);
      KeysSnoc(d0, (last.0, v));
    }
  }

  /** The dict `TextExtraction(root).extract()` returns for a folder whose
      entries are `tree`. */
  function Extracted(dec: Decoders, root: Path, tree: seq<Node>): seq<(Path, string)> {
    ReadAll(dec, root, [], FilesIn(root, tree))
  }

  // ---------------------------------------------------------------------
  // The class
  // ---------------------------------------------------------------------

  class RelevantDocumentsSearch {
    const currentFolderPath: Path
    const request: string
    const chunkLength: int
    const resultsCount: nat

    constructor (currentFolderPath: Path, request: string, chunkLength: int := 400, resultsCount: nat := 5)
      ensures this.currentFolderPath == currentFolderPath && this.request == request
      ensures this.chunkLength == chunkLength && this.resultsCount == resultsCount
    {
      this.currentFolderPath := currentFolderPath;
      this.request := request;
      this.chunkLength := chunkLength;
      this.resultsCount := resultsCount;
    }

    /** `create_collection(text_chunks, relative_path)`. */
    method CreateCollection(kit: Toolkit, textChunks: seq<string>, relativePath: Path) returns (collection: Collection)
      ensures collection == Upserted(kit, textChunks, relativePath)
      ensures forall i :: 0 <= i < |textChunks| ==>
        && collection.documents[i] == Normalize(kit, textChunks[i])
        && collection.ids[i] == NatToString(i)
        && collection.metadatas[i] == PathString(relativePath)
    {
      var parts := SplitSep(PathString(relativePath));
      var nameStr := JoinWith('.', parts);
      var textChunksLemmed: seq<string> := [];
      for i := 0 to |textChunks|
        invariant textChunksLemmed == NormalizeEach(kit, textChunks[..i])
      {
        assert textChunks[..i + 1][..i] == textChunks[..i];
        var chunk := TextExtraction.LemmatizationAndPunctClean(kit, textChunks[i]);
        textChunksLemmed := textChunksLemmed + [chunk];
      }
      assert textChunks[..|textChunks|] == textChunks;
      collection := Collection(
        nameStr,
        textChunksLemmed,
        Ids(|textChunksLemmed|),
        Metadatas(PathString(relativePath), |textChunksLemmed|));
    }

    /** `extract_rel_doc_paths(distances)`: the paths of the
        `results_count` closest entries, closest first. */
    method ExtractRelDocPaths(distances: seq<(Path, real)>) returns (relevantPaths: seq<Path>)
      requires IsDict(distances)
      ensures relevantPaths == Keys(TopK(distances, resultsCount))
    {
      var top := TopK(distances, resultsCount);
      var sortedD := FromItems(top);
      relevantPaths := [];
      for i := 0 to |sortedD|
        invariant relevantPaths == Keys(sortedD[..i])
      {
        relevantPaths := relevantPaths + [sortedD[i].0];
      }
      assert sortedD[..|sortedD|] == sortedD;
      assert sortedD == top by {
        TopKRanking(distances, resultsCount);
        FromItemsOfDict(top);
      }
    }

    /** `find_documents()`: extract every file below the folder, chunk it,
        store its chunks in a collection, record the distance of its best
        chunk to the request, and rank the documents by that distance. */
    method FindDocuments(kit: Toolkit, query: Query, tree: seq<Node>, dec: Decoders) returns (paths: seq<Path>)
      ensures paths == Keys(TopK(Distances(Extracted(dec, currentFolderPath, tree),
                                           BestDistance(kit, query, request, chunkLength)), resultsCount))
    {
      var extraction := new TextExtraction(currentFolderPath, tree, dec);
      var documentsDict := extraction.Extract();
      assert documentsDict == Extracted(dec, currentFolderPath, tree) by {
        assert [] + FilesIn(currentFolderPath, tree) == FilesIn(currentFolderPath, tree);
      }
      ghost var dist := BestDistance(kit, query, request, chunkLength);
      var distances: seq<(Path, real)> := [];
      for i := 0 to |documentsDict|
        invariant distances == Distances(documentsDict[..i], dist)
      {
        var path := documentsDict[i].0;
        var text := documentsDict[i].1;
        var chunks := ChunkProcessing.ChunkTextBySentence(text, chunkLength);
        var collection := CreateCollection(kit, chunks, path);
        var bestChunk, bestDistance := ChunkProcessing.FindBestChunk(kit, query, collection, request);
        assert bestDistance == dist(path, text);
        DistancesPrefix(documentsDict, dist, i);
        distances := Set(distances, path, bestDistance);
      }
      assert documentsDict[..|documentsDict|] == documentsDict;
      paths := ExtractRelDocPaths(distances);
    }
  }
}
