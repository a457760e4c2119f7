/** The "what is new" step of the crawl (scraper.py, line 20): the URLs that
    are listed now but are not in the persisted list. The source goes through
    a Python `set`, whose iteration order is unspecified; this model keeps the
    discovery order and the first occurrence of each URL, one of the orders
    the source may produce. */
module Diff {

  /** No URL occurs twice. */
  predicate NoDuplicates(s: seq<string>) {
    forall i, j :: 0 <= i < j < |s| ==> s[i] != s[j]
  }

  /** The URLs of `discovered` outside `seen`, each once, in order of first
      occurrence. */
  function Unseen(seen: set<string>, discovered: seq<string>): (r: seq<string>)
    ensures forall u :: u in r <==> u in discovered && u !in seen
    ensures NoDuplicates(r)
    decreases |discovered|
  {
    if discovered == [] then []
    else if discovered[0] in seen then Unseen(seen, discovered[1..])
    else [discovered[0]] + Unseen(seen + {discovered[0]}, discovered[1..])
  }

  /** `new_urls = list(set(updated_urls) - set(existing_urls))`. */
  function NewUrls(existing: seq<string>, discovered: seq<string>): (added: seq<string>)
    ensures forall u :: u in added <==> u in discovered && u !in existing
    ensures NoDuplicates(added)
    ensures added == [] <==> forall u :: u in discovered ==> u in existing
  {
    var r := Unseen((set u | u in existing), discovered);
    assert r != [] ==> r[0] in r;
    r
  }

  /** `discovered` without the URLs of `existing`, in order. */
  function Without(discovered: seq<string>, existing: seq<string>): seq<string>
    decreases |discovered|
  {
    if discovered == [] then []
    else if discovered[0] in existing then Without(discovered[1..], existing)
    else [discovered[0]] + Without(discovered[1..], existing)
  }

  /** Marking a URL as seen that does not occur changes nothing. */
  lemma {:induction false} UnseenIgnoresAbsent(seen: set<string>, x: string, discovered: seq<string>)
    requires x !in discovered
    ensures Unseen(seen + {x}, discovered) == Unseen(seen, discovered)
    decreases |discovered|
  {
    if discovered != [] {
      var d := discovered[0];
      if d in seen {
        UnseenIgnoresAbsent(seen, x, discovered[1..]);
      } else {
        assert d !in seen + {x};
        UnseenIgnoresAbsent(seen + {d}, x, discovered[1..]);
        assert seen + {x} + {d} == seen + {d} + {x};
      }
    }
  }

  lemma {:induction false} UnseenIsFilter(seen: set<string>, existing: seq<string>, discovered: seq<string>)
    requires NoDuplicates(discovered)
    requires forall u :: u in seen <==> u in existing
    ensures Unseen(seen, discovered) == Without(discovered, existing)
    decreases |discovered|
  {
    if discovered != [] {
      var d := discovered[0];
      var rest := discovered[1..];
      assert NoDuplicates(rest) by {
        forall i, j | 0 <= i < j < |rest| ensures rest[i] != rest[j] {
          assert rest[i] == discovered[i + 1] && rest[j] == discovered[j + 1];
        }
      }
      UnseenIsFilter(seen, existing, rest);
      if d !in seen {
        assert d !in rest by {
          forall j | 0 <= j < |rest| ensures rest[j] != d {
            assert rest[j] == discovered[j + 1];
          }
        }
        UnseenIgnoresAbsent(seen, d, rest);
      }
    }
  }

  /** On a listing without repeated URLs the new URLs are exactly the listing
      with the persisted ones taken out, in listing order: persisted `[u1]`
      and discovered `[u1, u2, u3]` give `[u2, u3]`. */
  lemma NewUrlsInListingOrder(existing: seq<string>, discovered: seq<string>)
    requires NoDuplicates(discovered)
    ensures NewUrls(existing, discovered) == Without(discovered, existing)
  {
    UnseenIsFilter((set u | u in existing), existing, discovered);
  }

  /** Once the new URLs are appended to the persisted list, the same listing
      yields nothing new. */
  lemma SecondDiffEmpty(existing: seq<string>, discovered: seq<string>)
    ensures NewUrls(existing + NewUrls(existing, discovered), discovered) == []
  {
    var added := NewUrls(existing, discovered);
    forall u | u in discovered
      ensures u in existing + added
    {
      if u !in existing {
        assert u in added;
      }
    }
  }
}
