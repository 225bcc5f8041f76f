/** The URL extractor: folds the `dependencies` mapping of a package-lock
    manifest into the set of its entries' `resolved` download locations.
    Entries without `resolved` are skipped; equal values collapse into one.
 */
module UrlExtractor {
  import opened Wrappers

  /** A dependency record; `resolved` is `None` when the key is absent. */
  datatype DependencyRecord = DependencyRecord(resolved: Option<string>)

  /** One (name, record) pair of the `dependencies` mapping. */
  type Entry = (string, DependencyRecord)

  /** The parsed manifest. The `dependencies` mapping is kept in iteration
      order as a sequence of entries. */
  datatype Manifest = Manifest(dependencies: Option<seq<Entry>>)

  /** Some entry of `deps` has `resolved` equal to `u`. */
  predicate ResolvesTo(deps: seq<Entry>, u: string) {
    exists i :: 0 <= i < |deps| && deps[i].1.resolved == Some(u)
  }

  /** Number of entries that carry a `resolved` key. */
  function ResolvedCount(deps: seq<Entry>): (n: nat)
    ensures n <= |deps|
    decreases |deps|
  {
    if deps == [] then 0
    else (if deps[0].1.resolved.Some? then 1 else 0) + ResolvedCount(deps[1..])
  }

  /** The loop body: add the record's `resolved` value, if it has one. */
  function AddResolved(urls: set<string>, rec: DependencyRecord): set<string> {
    if rec.resolved.Some? then urls + {rec.resolved.value} else urls
  }

  /** The loop: fold `deps`, in order, into the accumulator `urls`. The result
      holds exactly `urls` and the `resolved` values of `deps`, and grows by
      at most one element per entry that has a `resolved` value. */
  function CollectUrls(urls: set<string>, deps: seq<Entry>): (r: set<string>)
    ensures forall u :: u in r <==> u in urls || ResolvesTo(deps, u)
    ensures |r| <= |urls| + ResolvedCount(deps)
    decreases |deps|
  {
    if deps == [] then urls
    else
      var r := CollectUrls(AddResolved(urls, deps[0].1), deps[1..]);
      assert forall u :: ResolvesTo(deps, u) <==> deps[0].1.resolved == Some(u) || ResolvesTo(deps[1..], u) by {
        forall u
          ensures ResolvesTo(deps, u) <==> deps[0].1.resolved == Some(u) || ResolvesTo(deps[1..], u)
        {
          if ResolvesTo(deps[1..], u) {
            var i :| 0 <= i < |deps[1..]| && deps[1..][i].1.resolved == Some(u);
            assert deps[i + 1] == deps[1..][i];
          }
          if ResolvesTo(deps, u) && deps[0].1.resolved != Some(u) {
            var i :| 0 <= i < |deps| && deps[i].1.resolved == Some(u);
            assert deps[1..][i - 1] == deps[i];
          }
        }
      }
      r
  }

  /** The whole call: the `resolved` set of the manifest's dependencies, or the
      KeyError for a manifest without a `dependencies` key. */
  function ExtractUrls(manifest: Manifest): (r: Result<set<string>, KeyError>)
    ensures manifest.dependencies.None? <==> r.Failure?
    ensures r.Failure? ==> r.error == KeyError("dependencies")
    ensures r.Success? ==> forall u :: u in r.value <==> ResolvesTo(manifest.dependencies.value, u)
    ensures r.Success? ==> |r.value| <= ResolvedCount(manifest.dependencies.value) <= |manifest.dependencies.value|
    ensures r.Success? ==>
              ((forall i :: 0 <= i < |manifest.dependencies.value| ==> manifest.dependencies.value[i].1.resolved.None?)
               ==> r.value == {})
  {
    if manifest.dependencies.None? then Failure(KeyError("dependencies"))
    else
      var urls := CollectUrls({}, manifest.dependencies.value);
      Success(urls)
  }

  /** Once `v` is already collected, an entry resolving to `v` adds nothing,
      so the result falls short of one element per resolved entry. */
  lemma {:induction false} RepeatAddsNothing(urls: set<string>, deps: seq<Entry>, j: nat, v: string)
    requires j < |deps| && deps[j].1.resolved == Some(v) && v in urls
    ensures |CollectUrls(urls, deps)| < |urls| + ResolvedCount(deps)
    decreases |deps|
  {
    var next := AddResolved(urls, deps[0].1);
    if j == 0 {
      assert next == urls;
    } else {
      assert deps[1..][j - 1] == deps[j];
      RepeatAddsNothing(next, deps[1..], j - 1, v);
    }
  }

  /** Two entries with the same `resolved` value collapse to one element: the
      result is strictly smaller than the number of resolved entries. */
  lemma {:induction false} DuplicatesCollapse(urls: set<string>, deps: seq<Entry>, i: nat, j: nat)
    requires i < j < |deps|
    requires deps[i].1.resolved.Some? && deps[j].1.resolved == deps[i].1.resolved
    ensures |CollectUrls(urls, deps)| < |urls| + ResolvedCount(deps)
    decreases |deps|
  {
    var next := AddResolved(urls, deps[0].1);
    assert deps[1..][j - 1] == deps[j];
    if i == 0 {
      RepeatAddsNothing(next, deps[1..], j - 1, deps[0].1.resolved.value);
    } else {
      assert deps[1..][i - 1] == deps[i];
      DuplicatesCollapse(next, deps[1..], i - 1, j - 1);
    }
  }

  /** The result does not depend on the iteration order of the mapping: any
      rearrangement of the same entries yields the same set. */
  lemma OrderIndependent(a: seq<Entry>, b: seq<Entry>)
    requires multiset(a) == multiset(b)
    ensures ExtractUrls(Manifest(Some(a))) == ExtractUrls(Manifest(Some(b)))
  {
    forall u | ResolvesTo(a, u) ensures ResolvesTo(b, u) {
      var i :| 0 <= i < |a| && a[i].1.resolved == Some(u);
      assert a[i] in multiset(b);
      var j :| 0 <= j < |b| && b[j] == a[i];
    }
    forall u | ResolvesTo(b, u) ensures ResolvesTo(a, u) {
      var j :| 0 <= j < |b| && b[j].1.resolved == Some(u);
      assert b[j] in multiset(a);
      var i :| 0 <= i < |a| && a[i] == b[j];
    }
    assert ExtractUrls(Manifest(Some(a))).value == ExtractUrls(Manifest(Some(b))).value;
  }

  /** The imperative shape of the source: start from the empty set and add
      each entry's `resolved` value in iteration order. */
  method ExtractUrlsByLoop(manifest: Manifest) returns (r: Result<set<string>, KeyError>)
    ensures r == ExtractUrls(manifest)
  {
    if manifest.dependencies.None? {
      return Failure(KeyError("dependencies"));
    }
    var deps := manifest.dependencies.value;
    var urls: set<string> := {};
    var i := 0;
    while i < |deps|
      invariant 0 <= i <= |deps|
      invariant CollectUrls(urls, deps[i..]) == CollectUrls({}, deps)
    {
      assert deps[i..][1..] == deps[i + 1..];
      if deps[i].1.resolved.Some? {
        urls := urls + {deps[i].1.resolved.value};
      }
      i := i + 1;
    }
    return Success(urls);
  }

  /** A manifest in which two entries share one location and a third has no
      `resolved` yields that one location. */
  lemma SharedLocationExample()
    ensures ExtractUrls(Manifest(Some([
              ("a", DependencyRecord(Some("https://x/a"))),
              ("b", DependencyRecord(Some("https://x/a"))),
              ("c", DependencyRecord(None))])))
         == Success({"https://x/a"})
  {
  }
}
