/**
 * The list edits the projects and share pages make on entries identified by
 * their `url`: `list.map(x => x.url === url ? updated : x)` and
 * `list.filter(x => x.url !== url)`.
 */
module UrlList {

  /** Every entry with this url replaced by `updated`. */
  function ReplaceUrl<T>(xs: seq<T>, urlOf: T -> string, url: string, updated: T): (r: seq<T>)
    ensures |r| == |xs|
    ensures forall i | 0 <= i < |xs| && urlOf(xs[i]) == url :: r[i] == updated
    ensures forall i | 0 <= i < |xs| && urlOf(xs[i]) != url :: r[i] == xs[i]
    decreases |xs|
  {
    if xs == [] then []
    else [if urlOf(xs[0]) == url then updated else xs[0]] + ReplaceUrl(xs[1..], urlOf, url, updated)
  }

  /** The entries whose url differs from `url`, in order. */
  function RemoveUrl<T>(xs: seq<T>, urlOf: T -> string, url: string): (r: seq<T>)
    ensures |r| <= |xs|
    decreases |xs|
  {
    if xs == [] then []
    else (if urlOf(xs[0]) == url then [] else [xs[0]]) + RemoveUrl(xs[1..], urlOf, url)
  }

  /** Deleting keeps exactly the entries with another url. */
  lemma {:induction false} RemoveUrlMembers<T>(xs: seq<T>, urlOf: T -> string, url: string)
    ensures forall x | x in RemoveUrl(xs, urlOf, url) :: x in xs && urlOf(x) != url
    ensures forall x | x in xs && urlOf(x) != url :: x in RemoveUrl(xs, urlOf, url)
  {
    if xs != [] {
      RemoveUrlMembers(xs[1..], urlOf, url);
      assert xs == [xs[0]] + xs[1..];
    }
  }

  /** Replacing with an entry of the same url a second time changes nothing more. */
  lemma ReplaceIdempotent<T>(xs: seq<T>, urlOf: T -> string, url: string, updated: T)
    requires urlOf(updated) == url
    ensures ReplaceUrl(ReplaceUrl(xs, urlOf, url, updated), urlOf, url, updated) == ReplaceUrl(xs, urlOf, url, updated)
  {
  }

  /** A url no entry has is not replaced anywhere. */
  lemma ReplaceAbsent<T>(xs: seq<T>, urlOf: T -> string, url: string, updated: T)
    requires forall x | x in xs :: urlOf(x) != url
    ensures ReplaceUrl(xs, urlOf, url, updated) == xs
  {
    var r := ReplaceUrl(xs, urlOf, url, updated);
    forall i | 0 <= i < |xs| ensures r[i] == xs[i] {
      assert xs[i] in xs;
    }
  }

  /** Deleting a replaced entry is deleting the original one. */
  lemma {:induction false} RemoveReplaced<T>(xs: seq<T>, urlOf: T -> string, url: string, updated: T)
    requires urlOf(updated) == url
    ensures RemoveUrl(ReplaceUrl(xs, urlOf, url, updated), urlOf, url) == RemoveUrl(xs, urlOf, url)
  {
    if xs != [] {
      var r := ReplaceUrl(xs, urlOf, url, updated);
      assert r[1..] == ReplaceUrl(xs[1..], urlOf, url, updated);
      RemoveReplaced(xs[1..], urlOf, url, updated);
    }
  }

  /** Deleting by url distributes over concatenation. */
  lemma {:induction false} RemoveConcat<T>(xs: seq<T>, ys: seq<T>, urlOf: T -> string, url: string)
    ensures RemoveUrl(xs + ys, urlOf, url) == RemoveUrl(xs, urlOf, url) + RemoveUrl(ys, urlOf, url)
  {
    if xs != [] {
      var head := if urlOf(xs[0]) == url then [] else [xs[0]];
      assert RemoveUrl(xs + ys, urlOf, url) == head + RemoveUrl(xs[1..] + ys, urlOf, url) by {
        assert (xs + ys)[0] == xs[0] && (xs + ys)[1..] == xs[1..] + ys;
      }
      RemoveConcat(xs[1..], ys, urlOf, url);
      assert RemoveUrl(xs, urlOf, url) == head + RemoveUrl(xs[1..], urlOf, url);
    } else {
      assert xs + ys == ys;
    }
  }

  /** Deleting an entry that holds no url of the list restores it. */
  lemma {:induction false} RemoveNone<T>(xs: seq<T>, urlOf: T -> string, url: string)
    requires forall x | x in xs :: urlOf(x) != url
    ensures RemoveUrl(xs, urlOf, url) == xs
  {
    if xs != [] {
      assert xs[0] in xs;
      RemoveNone(xs[1..], urlOf, url);
      assert xs == [xs[0]] + xs[1..];
    }
  }

  /** Adding an entry with a new url and then deleting it gives back the list. */
  lemma AppendThenRemove<T>(xs: seq<T>, urlOf: T -> string, added: T)
    requires forall x | x in xs :: urlOf(x) != urlOf(added)
    ensures RemoveUrl(xs + [added], urlOf, urlOf(added)) == xs
  {
    RemoveConcat(xs, [added], urlOf, urlOf(added));
    RemoveNone(xs, urlOf, urlOf(added));
    assert RemoveUrl([added], urlOf, urlOf(added)) == [];
  }
}
