/** The in-memory story list of the App component and the title search that
    derives `searchedStories` from it. */
module Stories {
  import opened Text

  /** One search result record, identified by its objectID. */
  datatype Story = Story(
    title: string,
    url: string,
    author: string,
    numComments: nat,
    points: int,
    objectID: int)

  /** The two stories the App component holds. */
  function SampleStories(): (r: seq<Story>)
    ensures |r| == 2
    ensures r[0].title == "React" && r[0].objectID == 0
    ensures r[1].title == "Redux" && r[1].objectID == 1
  {
    [ Story("React", "https://reactjs.org/", "Jordan Walke", 3, 4, 0),
      Story("Redux", "https://redux.js.org/", "Dan Abramov, Andrew Clark", 2, 5, 1) ]
  }

  /** The filter predicate: the lower-cased title includes the lower-cased term. */
  predicate Matches(story: Story, term: string)
    ensures term == [] ==> Matches(story, term)
    ensures Matches(story, term) ==> |term| <= |story.title|
  {
    Includes(ToLower(story.title), ToLower(term))
  }

  /** `stories.filter(story => story.title.toLowerCase().includes(searchTerm.toLowerCase()))`:
      keeps exactly the matching stories, none added, none invented. */
  function SearchStories(stories: seq<Story>, term: string): (r: seq<Story>)
    ensures |r| <= |stories|
    ensures forall x :: x in r ==> x in stories && Matches(x, term)
    ensures forall x :: x in stories && Matches(x, term) ==> x in r
  {
    if stories == [] then []
    else if Matches(stories[0], term) then [stories[0]] + SearchStories(stories[1..], term)
    else SearchStories(stories[1..], term)
  }

  /** xs can be obtained from ys by deleting elements, keeping the order of the rest. */
  ghost predicate IsSubsequence<T>(xs: seq<T>, ys: seq<T>)
    decreases |ys|
  {
    xs == [] ||
    (ys != [] &&
     ((xs[0] == ys[0] && IsSubsequence(xs[1..], ys[1..])) || IsSubsequence(xs, ys[1..])))
  }

  /** The search result keeps the stories in the order they have in the input. */
  lemma {:induction false} SearchIsSubsequence(stories: seq<Story>, term: string)
    ensures IsSubsequence(SearchStories(stories, term), stories)
  {
    if stories != [] {
      SearchIsSubsequence(stories[1..], term);
    }
  }

  /** Each story occurs in the result as often as in the input when it matches, and not at all otherwise. */
  lemma {:induction false} SearchCounts(stories: seq<Story>, term: string, x: Story)
    ensures multiset(SearchStories(stories, term))[x] ==
            if Matches(x, term) then multiset(stories)[x] else 0
  {
    if stories != [] {
      SearchCounts(stories[1..], term, x);
      assert stories == [stories[0]] + stories[1..];
    }
  }

  /** An empty search term keeps every story, since every string includes "". */
  lemma {:induction false} EmptyTermKeepsAll(stories: seq<Story>)
    ensures SearchStories(stories, "") == stories
  {
    if stories != [] {
      EmptyTermKeepsAll(stories[1..]);
    }
  }

  /** A story list in which every story matches is returned unchanged. */
  lemma {:induction false} AllMatchKeepsAll(stories: seq<Story>, term: string)
    requires forall x :: x in stories ==> Matches(x, term)
    ensures SearchStories(stories, term) == stories
  {
    if stories != [] {
      AllMatchKeepsAll(stories[1..], term);
    }
  }

  /** Searching the search result again with the same term changes nothing. */
  lemma {:induction false} SearchIdempotent(stories: seq<Story>, term: string)
    ensures SearchStories(SearchStories(stories, term), term) == SearchStories(stories, term)
  {
    AllMatchKeepsAll(SearchStories(stories, term), term);
  }

  /** Terms that differ only in ASCII letter case select the same stories. */
  lemma {:induction false} SearchIgnoresCase(stories: seq<Story>, a: string, b: string)
    requires EqualIgnoringCase(a, b)
    ensures SearchStories(stories, a) == SearchStories(stories, b)
  {
    ToLowerEqualIff(a, b);
    if stories != [] {
      SearchIgnoresCase(stories[1..], a, b);
    }
  }

  /** On the App's own data, "React" keeps only the story with objectID 0,
      and "Redux" keeps only the story with objectID 1. */
  lemma SampleSearches()
    ensures SearchStories(SampleStories(), "React") == [SampleStories()[0]]
    ensures SampleStories()[0].objectID == 0
    ensures !Matches(SampleStories()[0], "Redux")
    ensures SearchStories(SampleStories(), "Redux") == [SampleStories()[1]]
  {
    var react, redux := SampleStories()[0], SampleStories()[1];
    assert ToLower("React") == "react";
    assert ToLower("Redux") == "redux";
    assert Matches(react, "React");
    assert Matches(redux, "Redux");
    NotIncludedSameLength("react", "redux");
    NotIncludedSameLength("redux", "react");
  }

  /** A string of the same length as t includes t only when it equals t. */
  lemma NotIncludedSameLength(s: string, t: string)
    requires |s| == |t| && s != t
    ensures !Includes(s, t)
  {
    if |s| > 0 {
      assert !Includes(s[1..], t);
    }
  }
}
