# Hacker Stories search: a Dafny model

This project models the logic of the App component in `src/App.js` of the "road to React"
Hacker Stories application. The rest of that component only renders.

- **The title search.** `searchedStories` keeps every story whose title, lower-cased, includes
  the lower-cased search term. `Text` models `toLowerCase` with ASCII case folding and
  `includes` as substring containment. `Stories` models the `filter` call and proves that the
  result is the exact, order-preserving selection of matching stories.
- **The semi-persistent search term.** `useSemiPersistentState('search', 'React')` reads its
  start value from `localStorage`. Because the code uses `||`, a missing value and a stored
  `""` both fall back to `'React'`. Each change is written back to the store, first by
  `handleSearch` and then by the hook's effect. `Storage` models `localStorage` as a
  `map<string, string>`. `SearchState.SearchTerm` is a class with the state `term` and the
  `store`; its constructor is the mount and `Search` is `handleSearch`.

The hook's effect is modelled as running straight after mounting and after every change. So
after construction the store already holds the start term under `"search"`.

## Model

| member | source | states |
|---|---|---|
| Text.LowerChar | src/App.js:39 | one character of `toLowerCase`: the result is never an upper-case ASCII letter; 'A'..'Z' map to the letter at the same position in 'a'..'z'; every other character is kept |
| Text.ToLower | src/App.js:39 | `toLowerCase`: same length as the input, each character folded by LowerChar, and no upper-case ASCII letter is left |
| Text.ToLowerIdempotent | src/App.js:39 | lower-casing an already lower-cased string changes nothing |
| Text.LowerCasedFixed | src/App.js:39 | a string with no upper-case letter is its own lower-cased form |
| Text.LowerCharEqualIff | src/App.js:39 | two characters fold to the same character if and only if they are equal or are the upper- and lower-case form of one ASCII letter |
| Text.ToLowerEqualIff | src/App.js:39 | two strings have the same lower-cased form if and only if, position by position, their characters are equal or the two cases of one ASCII letter |
| Text.Includes | src/App.js:39 | `includes`: every string includes `""`, and a string includes only strings no longer than itself |
| Text.OccursShift | src/App.js:39 | an occurrence at index j in the tail of s is an occurrence at j + 1 in s, and conversely |
| Text.IncludesIffOccurs | src/App.js:39 | `s.includes(t)` holds if and only if t occurs in s at some index (both directions) |
| Stories.SampleStories | src/App.js:21-34 | the App's `stories` constant: two stories, "React" with objectID 0 and "Redux" with objectID 1 |
| Stories.Matches | src/App.js:39 | the filter's callback: the lower-cased title includes the lower-cased term; an empty term matches every story, and a matched term is no longer than the title |
| Stories.SearchStories | src/App.js:38-40 | the filter result is no longer than the input; every story in it is an input story that matches; every matching input story is in it |
| Stories.SearchIsSubsequence | src/App.js:38-40 | the result is an order-preserving subsequence of `stories` |
| Stories.SearchCounts | src/App.js:38-40 | each story occurs in the result exactly as often as in the input if it matches, and never if it does not |
| Stories.EmptyTermKeepsAll | src/App.js:39 | an empty search term keeps every story, in order |
| Stories.AllMatchKeepsAll | src/App.js:38-40 | a list whose stories all match is returned unchanged |
| Stories.SearchIdempotent | src/App.js:38-40 | filtering `searchedStories` again with the same term returns the same list |
| Stories.SearchIgnoresCase | src/App.js:39 | two terms that differ only in ASCII letter case select the same stories |
| Stories.NotIncludedSameLength | src/App.js:39 | a title of the same length as the term but different from it does not include the term |
| Stories.SampleSearches | src/App.js:21-40 | on the App's two stories, `'React'` keeps only the story with objectID 0, `'Redux'` does not match it, and `'Redux'` keeps only the story with objectID 1 |
| Storage.GetItem | src/App.js:7 | `getItem` gives a value exactly when the key is present, and that value is the stored one |
| Storage.SetItem | src/App.js:14 | `setItem` maps the key to the value; the other keys keep their entries and no key is added besides this one |
| Storage.GetAfterSet | src/App.js:7-15 | reading a key just written gives the written value; every other key reads as before |
| Storage.Or | src/App.js:7 | JavaScript's or-else on a string or null: the first operand when it is present and non-empty, and otherwise the second, so a stored `""` falls through |
| Storage.InitialValue | src/App.js:7 | `getItem(key)` or-else `initialState`: the stored value when present and non-empty; otherwise the initial state, also when `""` is stored; never empty when the initial state is non-empty |
| Storage.ReloadAfterWrite | src/App.js:7-15 | after a value is written, the next start-up reads it back; a written `""` comes back as the initial state |
| SearchState.SearchTerm.constructor | src/App.js:6-17 | mounting: the term follows the or-else fallback rule with key `'search'` and default `'React'` (line 36); the effect then stores the term under `'search'`, leaving other keys alone, so store and state agree |
| SearchState.SearchTerm.Search | src/App.js:42-45 | `handleSearch(v)`: the term becomes v; the store maps `'search'` to v; no other key changes; store and state agree |
| SearchState.TypeReduxThenReload | src/App.js:36-45 | from an empty store, searching `'Redux'` shows only the Redux story, and a start-up over the resulting store begins with `'Redux'` |

## Left out

- Rendering: the App markup, the `InputWithLabel` and `List` components of `src/App.js`, and
  the components of `src/List.js`. They only present data. The Dismiss button's callback in
  `src/List.js` is an event hook, not logic.
- The focus effect in `src/InputWithLabel.js`. It works on the DOM through a ref.
- React's scheduling of `useState` updates and `useEffect` runs. The effect is modelled as
  running at once after each change. Only its outcome is kept: store and state agree.
- Real `localStorage` I/O. It is replaced by an in-memory map that the class owns.
- Text.ToLower and Text.LowerChar: fold only the ASCII letters 'A'..'Z'. JavaScript's `toLowerCase` follows the
  full Unicode case mapping, which is not modelled.
- `storiesReducer`: the tests import it, but it is defined in none of the files of this model,
  and `src/App.js` exports only `App`. It is not part of this model.
- The test harness in `src/App.test.js`: rendering, events and mocks.
