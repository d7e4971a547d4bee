/**
 * Class search (src/logic/Search.ts): the classes whose simple name contains the query, ignoring ASCII
 * case, at most 100 of them, in class-list order.
 */
module Search {
  import opened Wrappers
  import opened Strings

  const RESULT_LIMIT: nat := 100

  /** `className.split('/').pop() || className`. */
  function SimpleName(className: string): (r: string)
    ensures EndsWith(className, r)
    ensures r == className || (r != "" && '/' !in r)
  {
    AfterLastIsSuffix(className, '/');
    CutAtChar(className, '/');
    var last := AfterLast(className, '/');
    if last == "" then className else last
  }

  /** The filter applied to each class for a query. */
  predicate IsMatch(lowerQuery: string, className: string) {
    Contains(ToLowerAscii(SimpleName(className)), lowerQuery)
  }

  /** The filter as a function on class names. */
  function MatchesQuery(lowerQuery: string): string -> bool {
    className => IsMatch(lowerQuery, className)
  }

  /** `query.length > 0` */
  predicate IsSearching(query: string) {
    |query| > 0
  }

  /** The first `n` elements, or all of them when there are fewer (`take(n)`). */
  function Take<T>(xs: seq<T>, n: nat): (r: seq<T>)
    ensures |r| <= n && |r| <= |xs| && r == xs[..|r|]
    ensures |xs| <= n ==> r == xs
    ensures |xs| > n ==> r == xs[..n]
  {
    if |xs| <= n then xs else xs[..n]
  }

  /** The search results for one emission of the class list and the query. */
  function SearchResults(classes: seq<string>, query: string): seq<string>
  {
    if |query| == 0 then []
    else
      var lowerQuery := ToLowerAscii(query);
      Take(Filter(classes, MatchesQuery(lowerQuery)), RESULT_LIMIT)
  }

  /**
   * No query, no results; otherwise at most 100 results, each a class whose lower-cased simple name holds
   * the lower-cased query, forming the start of the matching classes in list order: all of them when
   * no more than 100 match, and exactly the first 100 otherwise.
   */
  lemma SearchResultsContents(classes: seq<string>, query: string)
    ensures !IsSearching(query) ==> SearchResults(classes, query) == []
    ensures var r := SearchResults(classes, query);
            |r| <= RESULT_LIMIT
            && forall c :: c in r ==> c in classes && IsMatch(ToLowerAscii(query), c)
    ensures var matching := Filter(classes, MatchesQuery(ToLowerAscii(query)));
            IsSearching(query) ==>
              SearchResults(classes, query) == matching[..|SearchResults(classes, query)|]
              && (|matching| <= RESULT_LIMIT ==> SearchResults(classes, query) == matching)
              && (|matching| > RESULT_LIMIT ==> SearchResults(classes, query) == matching[..RESULT_LIMIT])
  {
    if IsSearching(query) {
      var lowerQuery := ToLowerAscii(query);
      var matching := Filter(classes, MatchesQuery(lowerQuery));
      var r := Take(matching, RESULT_LIMIT);
      assert SearchResults(classes, query) == r;
      forall c | c in r
        ensures c in classes && IsMatch(lowerQuery, c)
      {
        assert c in matching;
        assert MatchesQuery(lowerQuery)(c);
      }
    }
  }

  /**
   * The results list is non-empty exactly when a query is being typed and some class in the list matches
   * it: `isSearching` is the first half of that condition.
   */
  lemma SearchingShowsResults(classes: seq<string>, query: string)
    ensures |SearchResults(classes, query)| > 0 <==>
              IsSearching(query) && exists c :: c in classes && IsMatch(ToLowerAscii(query), c)
  {
    var r := SearchResults(classes, query);
    if |r| > 0 {
      SearchResultsContents(classes, query);
      assert r[0] in r;
    } else if IsSearching(query) {
      var lowerQuery := ToLowerAscii(query);
      var matching := Filter(classes, MatchesQuery(lowerQuery));
      assert r == Take(matching, RESULT_LIMIT);
      assert matching == [];
      forall c | c in classes
        ensures !IsMatch(lowerQuery, c)
      {
        assert c !in matching;
      }
    }
  }

  /** A class with no '/' is matched on its whole name, as is one whose name ends in '/'. */
  lemma SimpleNameFallback(className: string)
    ensures '/' !in className ==> SimpleName(className) == className
    ensures |className| > 0 && className[|className| - 1] == '/' ==> SimpleName(className) == className
  {
    CutAtChar(className, '/');
  }
}
