# Pokemon Explorer list page: search filter and debounce

This project models the logic of the Pokemon list page (`pages/index.tsx`) of
Pokemon Explorer. The page loads a list of `{name, url}` records once and shows
the records whose name contains the text typed in a search box. Two pieces of
that page are real logic, and the model covers both:

- **The name filter** (`PokemonFilter`, `filter.dfy`). `pokemons.filter(...)`
  keeps, in order, the records whose lower-cased name `includes` the lower-cased
  search term. It is modelled as the pure function `Filter` over
  `seq<Pokemon>`. `Lower` is ASCII case folding and `Includes` is the substring
  test. The lemmas say that the result is exactly the subsequence of matching
  positions, that membership is "in the input and matches", that the empty term
  keeps everything, that case does not matter, that filtering is idempotent,
  and that a term that contains the old one only narrows the result.
- **The debounce** (`Debounce`, `debounce.dfy`). `debounce(func, delay)`
  returns a closure holding one timer handle. Each call clears the pending
  timer and sets a new one that calls `func` with that call's arguments after
  `delay` ms. Time is discrete: events carry a clock reading `at`. A pending
  timer fires at the first `TickAt` whose reading is at or after its deadline.
  - `Step` and `Run` give the semantics of a sequence of calls and ticks.
  - `LastCall`, `LastTask` and `DeadlineReached` describe the same behaviour
    independently: what the most recent call scheduled, and whether a later
    tick reached it.
  - The class `Debouncer` is the closure. Its field `pending` is the captured
    timer together with the arguments it will pass. `Call` and `Tick` update
    `pending` in place. Ghost `history` and `delivered` tie every state to
    `Run` (`Valid`).
- **The page wiring** (`HomePage`, `home.dfy`). The class `Home` holds the
  loaded list, the search text `name`, the shown list `filteredPokemons`
  (`filtered`) and the debounced `filterPokemons` with delay 300. A keystroke
  calls the debounced filter. When it fires, the shown list becomes
  `Filter(pokemons, name)`.

The page fetches its list once, with the fixed query `limit=100&offset=0`.
It has no pagination, no page counter and no image URLs. `filteredPokemons` is
stored state that starts as `[]`. So nothing is shown until the first debounced
run of the filter, 300 ms after the list has loaded. `Home` models that initial
empty list.

## Model

| member | source | states |
|---|---|---|
| `PokemonFilter.Lower` | pages/index.tsx:50 | `toLowerCase` keeps the length, folds each character with ASCII case folding, and leaves no upper-case letter |
| `PokemonFilter.LowerFolds` | pages/index.tsx:50 | folding is idempotent; two strings fold to the same string exactly when, position by position, their characters are equal or are the upper- and lower-case forms of one ASCII letter |
| `PokemonFilter.IncludesIff` | pages/index.tsx:50 | `includes` is true exactly when the needle occurs at some index of the haystack |
| `PokemonFilter.IncludesTransitive` | pages/index.tsx:50 | a string contained in a substring of `a` is contained in `a` |
| `PokemonFilter.Filter` | pages/index.tsx:49-51 | the result is never longer than the input, and every kept entry matches the term |
| `PokemonFilter.FilterPositions` | pages/index.tsx:49-51 | the result is the subsequence at an increasing list of positions, and a position is listed exactly when its entry's lower-cased name contains the lower-cased term: order kept, nothing added, nothing matching dropped |
| `PokemonFilter.FilterMembers` | pages/index.tsx:49-51 | an entry is in the result exactly when it is in the input and its lower-cased name contains the lower-cased term |
| `PokemonFilter.FilterEmptyTerm` | pages/index.tsx:50 | the empty term keeps the whole list unchanged |
| `PokemonFilter.FilterCaseInsensitive` | pages/index.tsx:50 | terms whose characters are pairwise equal or upper- and lower-case forms of one ASCII letter give the same result |
| `PokemonFilter.FilterIdempotent` | pages/index.tsx:49-51 | filtering a filtered list again with the same term returns it unchanged |
| `PokemonFilter.FilterNarrows` | pages/index.tsx:49-51 | when the old term occurs in the new one (typing more letters), filtering by the new term equals filtering the old result by it |
| `Debounce.LastCall` | pages/index.tsx:21-28 | finds the most recent call: every event after it is a tick, and with no call every event is a tick |
| `Debounce.PendingIsLastCall` | pages/index.tsx:22-27 | at most one timer is pending; it is the one the most recent call set (its arguments, its time plus `delay`) until a tick at or after that deadline fires it |
| `Debounce.TickDeliversLastCall` | pages/index.tsx:25-27 | a tick adds at most one invocation of `func`; it adds one exactly when the latest call's timer is still pending and due, and that invocation receives the latest call's arguments |
| `Debounce.QuietPeriodFiresOnce` | pages/index.tsx:19-29 | after the most recent call, any number of ticks invoke `func` at most once, with that call's arguments |
| `Debounce.BurstFiresOnce` | pages/index.tsx:19-29 | calls less than `delay` apart, with ticks in between and a clock that never goes back, invoke `func` at most once; it happens exactly when a tick reaches the last call's deadline, with the last call's arguments, and no earlier than `delay` after that call |
| `Debounce.TypingBurst` | pages/index.tsx:47-53 | with delay 300, typing "pika", "pikac", "pikach" 100 ms apart runs the filter once, with "pikach", at 500 ms, and later ticks run nothing |
| `Debounce.Debouncer.constructor` | pages/index.tsx:19-20 | a fresh debounced function has no pending timer and has invoked nothing |
| `Debounce.Debouncer.Call` | pages/index.tsx:21-28 | a call clears the pending timer and schedules exactly one for `now + delay` with its own arguments; nothing is invoked |
| `Debounce.Debouncer.Tick` | pages/index.tsx:25-27 | the timer fires exactly when it is pending and `now` has reached its deadline; it then passes the most recent call's arguments to `func` and is no longer pending; otherwise nothing changes |
| `HomePage.Home.constructor` | pages/index.tsx:32-35 | right after loading, the text is empty, nothing is shown, and the debounced filter has been called with the empty text |
| `HomePage.Home.SetName` | pages/index.tsx:62-64 | a changed text calls the debounced filter, replacing the pending run; an unchanged text triggers nothing; the shown list does not change yet |
| `HomePage.Home.Tick` | pages/index.tsx:47-55 | when the debounced run is due, it runs once with the current text, the shown list becomes exactly the filter of that text and no run is left pending; otherwise the pending run and the shown list stay as they were |

## Left out

- Fetching the list from the remote API and decoding its JSON (pages/index.tsx:37-44). This is network I/O. `Home` starts from the list as already loaded.
- React's hooks machinery: `useState`, `useEffect`, `useCallback` and re-rendering. `SetName` models the effect at lines 62-64 directly. It re-runs only when the text changes.
- The debounced function re-created when `pokemons` changes (pages/index.tsx:54). The re-created function has a fresh timer handle, so the timer of the one made before loading is not cancelled. That old timer was set earlier, so it fires first. It filters the empty pre-load list with the empty text, which gives the `[]` already shown. `Home` therefore starts from the debouncer made after loading.
- JSX rendering, the `Loader` component, `Link` navigation and the "No Pokemon Found" message (pages/index.tsx:66-106). These are presentation.
- The `loading` flag (pages/index.tsx:34, 43, 66-68). It is a one-way display toggle with no logic.
- Real `setTimeout` scheduling. Time is a sequence of explicit `now` readings passed to `Call` and `Tick`. A due timer fires at the first tick that reaches its deadline. Negative delays, which `setTimeout` treats as 0, are excluded by `delay: nat`.
- `PokemonFilter.Lower`: does not model Unicode `toLowerCase`. Only ASCII `A`-`Z` are folded. Every other character is kept as it is.
- The `if (timeoutId)` test (pages/index.tsx:22). It is false only before the first call. Clearing an already-fired timer does nothing. So `pending` being absent stands for both "never set" and "already fired".
- The detail page `pages/[PokemonDetailPage].tsx` is not part of this model. It is a one-shot fetch and display.

