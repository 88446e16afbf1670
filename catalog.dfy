/**
 * The catalog of wordlists as `archive.json` describes it, the name-indexed view
 * built from it (`convertWordlistToMap`), and the routines that walk it in
 * catalog order: `listRoutine`, `searchRoutine` (and, in module Fetch,
 * `fetchMulti`).
 */
module Catalog {
  import opened Common

  /** `DEFAULTSTR`: the value a flag holds when it was not given. As a `list` group it selects everything. */
  const DefaultStr: string := "."

  datatype WordlistInfo = WordlistInfo(url: string, group: string, size: string, updated: string)

  datatype Wordlist = Wordlist(name: string, info: WordlistInfo)

  /** The names that occur in a catalog. */
  function Names(wordlists: seq<Wordlist>): set<string>
  {
    set w | w in wordlists :: w.name
  }

  // ---------------------------------------------------------------------------
  // Order-preserving selection
  // ---------------------------------------------------------------------------

  /** The elements of `s` that `keep` accepts, in the order of `s`. */
  function Filter<T>(s: seq<T>, keep: T -> bool): (r: seq<T>)
    ensures |r| <= |s|
  {
    if s == [] then []
    else Filter(s[..|s| - 1], keep) + (if keep(s[|s| - 1]) then [s[|s| - 1]] else [])
  }

  /** Selection distributes over concatenation: what is kept from `a` comes before what is kept from `b`. */
  lemma {:induction false} FilterAppend<T>(a: seq<T>, b: seq<T>, keep: T -> bool)
    ensures Filter(a + b, keep) == Filter(a, keep) + Filter(b, keep)
  {
    if b == [] {
      assert a + b == a;
    } else {
      var last := b[|b| - 1];
      assert (a + b)[..|a + b| - 1] == a + b[..|b| - 1];
      FilterAppend(a, b[..|b| - 1], keep);
    }
  }

  /** Exactly the accepted elements of `s` are selected. */
  lemma {:induction false} FilterMembership<T>(s: seq<T>, keep: T -> bool, x: T)
    ensures x in Filter(s, keep) <==> x in s && keep(x)
  {
    if s != [] {
      FilterMembership(s[..|s| - 1], keep, x);
      assert s == s[..|s| - 1] + [s[|s| - 1]];
    }
  }

  /** When every element is accepted, the selection is the whole sequence, in its order. */
  lemma {:induction false} FilterKeepsAll<T>(s: seq<T>, keep: T -> bool)
    requires forall i :: 0 <= i < |s| ==> keep(s[i])
    ensures Filter(s, keep) == s
  {
    if s != [] {
      FilterKeepsAll(s[..|s| - 1], keep);
      assert s == s[..|s| - 1] + [s[|s| - 1]];
    }
  }

  // ---------------------------------------------------------------------------
  // convertWordlistToMap
  // ---------------------------------------------------------------------------

  /** The map that inserting every entry in catalog order produces (the later insertion wins). */
  function MapOf(wordlists: seq<Wordlist>): (m: map<string, WordlistInfo>)
    ensures m.Keys == Names(wordlists)
  {
    if wordlists == [] then map[]
    else
      var init := wordlists[..|wordlists| - 1];
      var last := wordlists[|wordlists| - 1];
      assert wordlists == init + [last];
      assert Names(wordlists) == Names(init) + {last.name};
      MapOf(init)[last.name := last.info]
  }

  /** The entry at `i` is the last one with its name. */
  predicate LastWithName(wordlists: seq<Wordlist>, i: int)
    requires 0 <= i < |wordlists|
  {
    forall j :: i < j < |wordlists| ==> wordlists[j].name != wordlists[i].name
  }

  /** Last write wins: the map holds, for each name, the info of the last entry carrying it. */
  lemma {:induction false} MapOfLastWins(wordlists: seq<Wordlist>, i: int)
    requires 0 <= i < |wordlists| && LastWithName(wordlists, i)
    ensures wordlists[i].name in MapOf(wordlists)
    ensures MapOf(wordlists)[wordlists[i].name] == wordlists[i].info
  {
    var n := |wordlists| - 1;
    if i < n {
      var init := wordlists[..n];
      assert LastWithName(init, i) by {
        forall j | i < j < |init| ensures init[j].name != init[i].name {
          assert init[j] == wordlists[j];
        }
      }
      MapOfLastWins(init, i);
    }
  }

  /** Every name has a last entry, so the map is determined entirely by the last-wins rule. */
  lemma {:induction false} LastEntryExists(wordlists: seq<Wordlist>, name: string)
    requires name in Names(wordlists)
    ensures exists i :: 0 <= i < |wordlists| && wordlists[i].name == name && LastWithName(wordlists, i)
  {
    var n := |wordlists| - 1;
    if wordlists[n].name == name {
      assert LastWithName(wordlists, n);
    } else {
      var init := wordlists[..n];
      assert name in Names(init) by {
        var w :| w in wordlists && w.name == name;
        var k :| 0 <= k < |wordlists| && wordlists[k] == w;
        assert k < n && init[k] == w;
      }
      LastEntryExists(init, name);
      var i :| 0 <= i < |init| && init[i].name == name && LastWithName(init, i);
      assert wordlists[i] == init[i];
      assert LastWithName(wordlists, i) by {
        forall j | i < j < |wordlists| ensures wordlists[j].name != wordlists[i].name {
          if j < n { assert wordlists[j] == init[j]; }
        }
      }
    }
  }

  /** `convertWordlistToMap`: index the catalog by name. */
  method ConvertWordlistToMap(arrayed: seq<Wordlist>) returns (mapped: map<string, WordlistInfo>)
    ensures mapped == MapOf(arrayed)
    ensures mapped.Keys == Names(arrayed)
  {
    mapped := map[];
    for i := 0 to |arrayed|
      invariant mapped == MapOf(arrayed[..i])
    {
      assert arrayed[..i + 1][..i] == arrayed[..i];
      mapped := mapped[arrayed[i].name := arrayed[i].info];
    }
    assert arrayed[..|arrayed|] == arrayed;
  }

  // ---------------------------------------------------------------------------
  // listRoutine
  // ---------------------------------------------------------------------------

  /** The test `listRoutine` applies to each entry. */
  function ListKeep(group: string): Wordlist -> bool
  {
    (w: Wordlist) => group == w.info.group || group == DefaultStr
  }

  /**
   * `listRoutine`: the entries handed to `printInfo`, in the order they are printed.
   */
  method ListRoutine(wordlistArray: seq<Wordlist>, group: string) returns (shown: seq<Wordlist>)
    ensures shown == Filter(wordlistArray, ListKeep(group))
    ensures forall w :: w in shown <==> w in wordlistArray && (w.info.group == group || group == DefaultStr)
    ensures group == DefaultStr ==> shown == wordlistArray
  {
    shown := [];
    for i := 0 to |wordlistArray|
      invariant shown == Filter(wordlistArray[..i], ListKeep(group))
    {
      assert wordlistArray[..i + 1][..i] == wordlistArray[..i];
      var wordlist := wordlistArray[i];
      if group == wordlist.info.group || group == DefaultStr {
        shown := shown + [wordlist];
      }
    }
    assert wordlistArray[..|wordlistArray|] == wordlistArray;
    forall w ensures w in shown <==> w in wordlistArray && (w.info.group == group || group == DefaultStr) {
      FilterMembership(wordlistArray, ListKeep(group), w);
    }
    if group == DefaultStr {
      FilterKeepsAll(wordlistArray, ListKeep(group));
    }
  }

  // ---------------------------------------------------------------------------
  // searchRoutine
  // ---------------------------------------------------------------------------

  /**
   * The regular-expression engine behind `regexp.MatchString(term, name)`:
   * whether a pattern compiles, and whether a compiled pattern matches a name.
   */
  datatype Regexp = Regexp(compiles: string -> bool, matches: (string, string) -> bool)

  /** What `regexp.MatchString` returns: whether it matched, and whether it failed. */
  datatype MatchResult = MatchResult(matched: bool, failed: bool)

  /** An invalid pattern fails for every name and matches none. */
  function MatchString(re: Regexp, term: string, name: string): (r: MatchResult)
    ensures r.failed <==> !re.compiles(term)
    ensures r.matched ==> !r.failed
  {
    if re.compiles(term) then MatchResult(re.matches(term, name), false) else MatchResult(false, true)
  }

  function NameMatches(term: string, re: Regexp): Wordlist -> bool
  {
    (w: Wordlist) => MatchString(re, term, w.name).matched
  }

  /**
   * `searchRoutine`: the entries whose names match, in catalog order, and the
   * number of error reports. An error does not stop the loop, so an invalid
   * pattern is reported once per entry and shows nothing.
   */
  method SearchRoutine(term: string, wordlists: seq<Wordlist>, re: Regexp)
    returns (shown: seq<Wordlist>, reports: nat)
    ensures shown == Filter(wordlists, NameMatches(term, re))
    ensures forall w :: w in shown <==> w in wordlists && re.compiles(term) && re.matches(term, w.name)
    ensures reports == if re.compiles(term) then 0 else |wordlists|
    ensures !re.compiles(term) ==> shown == []
  {
    shown, reports := [], 0;
    for i := 0 to |wordlists|
      invariant shown == Filter(wordlists[..i], NameMatches(term, re))
      invariant reports == if re.compiles(term) then 0 else i
      invariant !re.compiles(term) ==> shown == []
    {
      assert wordlists[..i + 1][..i] == wordlists[..i];
      var wordlist := wordlists[i];
      var r := MatchString(re, term, wordlist.name);
      if r.failed {
        reports := reports + 1;
      }
      if r.matched {
        shown := shown + [wordlist];
      }
    }
    assert wordlists[..|wordlists|] == wordlists;
    forall w ensures w in shown <==> w in wordlists && re.compiles(term) && re.matches(term, w.name) {
      FilterMembership(wordlists, NameMatches(term, re), w);
    }
  }
}
