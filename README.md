# WordMemorizer quiz core, modelled in Dafny

WordMemorizer is a flashcard quiz written as one React component,
`src/App.jsx`. It fetches a published spreadsheet as CSV and parses it into
rows. It drops the header row and shuffles the remaining rows with
Fisher-Yates to form the deck. Then it shows one card at a time: the answer
is revealed on request, and "next" moves to the following card, wrapping from
the last card to the first.

The model has three modules:

- `FisherYates` (`shuffle.dfy`): `shuffleArray` as an in-place method on an
  `array`. Its loop is proved against the sequence function `PassesFrom`
  (the array after the passes for positions `n-1` down to `i`) and
  `Shuffled` (the whole loop). `Math.floor(Math.random() * currentIndex)`
  becomes an oracle `rand: seq<nat>`. `rand[i]` is the index drawn on the
  pass that swaps position `i`. `ValidDraws` requires `rand[i] <= i`, which
  is the range `Math.floor(Math.random() * (i + 1))` can produce. Besides
  permutation, bounds and degenerate sizes, the module proves that, as a map
  from draw sequences to orderings, the shuffle is onto (`EveryOrderReachable`).
  When the elements are distinct it is also one-to-one (`DrawsDetermineOrder`).
  So each ordering of distinct rows comes from exactly one draw sequence.
  Probabilities themselves are not modelled.
- `DatasetLoader` (`loader.dfy`): the parse callback. `results.data` is an
  input `seq<Row>`, where `Row = seq<string>`. `slice(1)` is modelled by
  `StripHeader`. `BuildDeck` copies the rows into a fresh array and shuffles
  it in place.
- `Quiz` (`session.dfy`): the component state `quizData`, `currentIndex`,
  `showAnswer` and `loading`, as the class `Session`. The methods
  `CompleteLoad`, `FailLoad`, `Advance` (`handleNext`) and `Reveal` change it.
  The function `View` models the render gate and what a card shows.

Where the code and the intended design differ, the model follows the code:

- The loop runs `n` passes, down to and including position 0. That last pass
  swaps `a[0]` with itself. It is a no-op, but it is part of the model.
- A failed load (the `catch` at src/App.jsx:47-49) and a dataset with no data
  rows end in the same state: `loading` false and an empty deck. Both render
  the "no data" message, and nothing in the state tells them apart.
- `Advance` and `Reveal` require `Interactive()`, i.e. not loading and a
  non-empty deck. The buttons that call them exist only when a card is
  rendered (src/App.jsx:65-66, 88-91, 101). With an empty deck the
  expression `(prev + 1) % quizData.length` would give `NaN`, but that code
  path cannot be reached.
- `Reveal` does not require the answer to be hidden. The effect of
  `setShowAnswer(true)` is the same whether or not the answer is already
  shown, so a second call changes nothing.

## Model

| member | source | states |
|---|---|---|
| `FisherYates.ShuffleArray` | src/App.jsx:21-29 | Shuffles the array in place so that it equals `Shuffled(old contents, rand)`. Returns the same array. The `(i, j)` pairs it swaps are exactly `SwapsFrom(n, rand, 0)`. |
| `FisherYates.Swap` | src/App.jsx:26 | The destructuring swap: positions `i` and `j` exchange their values and every other position keeps its value. |
| `FisherYates.PassesFrom` | src/App.jsx:22-27 | The contents after the passes down to position `i` have the same length as the input. |
| `FisherYates.SwapsInBounds` | src/App.jsx:22-26 | The loop makes exactly `n` passes. Pass `k` swaps `i = n-1-k` with `rand[i]`, and `0 <= j <= i < n`. |
| `FisherYates.SwapPermutes` | src/App.jsx:26 | One swap keeps the multiset of elements. |
| `FisherYates.PassesPermute` | src/App.jsx:22-27 | After any number of passes the array is a permutation of the input. |
| `FisherYates.ShuffledPermutes` | src/App.jsx:21-29 | The shuffled array has the same length and the same multiset of elements as the input. |
| `FisherYates.SettledAbove` | src/App.jsx:23-26 | Once the loop has gone below position `i`, the positions `>= i` keep their values to the end. |
| `FisherYates.ShuffleDegenerate` | src/App.jsx:22-26 | Arrays of length 0 and 1 come out unchanged. |
| `FisherYates.PassesSplit` | src/App.jsx:22-27 | The first pass settles the last position. The remaining passes are the shuffle of the prefix before it, with the prefix of the draws. |
| `FisherYates.ShuffledSplit` | src/App.jsx:21-29 | `Shuffled(s, rand)` is the shuffle of the swapped prefix followed by `s[rand[n-1]]`. |
| `FisherYates.DropLastPermutes` | src/App.jsx:22-27 | If two permutations of each other end with the same element, dropping that element leaves permutations of each other. |
| `FisherYates.ExtendDraws` | src/App.jsx:24-26 | Valid draws for the prefix plus a draw `j <= n-1` for the last position are valid draws for the whole array. The result ends with `s[j]`. |
| `FisherYates.SwapLastPrefix` | src/App.jsx:26 | Swapping into the last place the element a target ordering ends with leaves prefixes with equal multisets. |
| `FisherYates.EveryOrderReachable` | src/App.jsx:21-29 | Every permutation of the input is the result of some valid draw sequence. |
| `FisherYates.SwapKeepsDistinct` | src/App.jsx:26 | A swap keeps the elements pairwise distinct. |
| `FisherYates.DrawsDetermineOrder` | src/App.jsx:21-29 | On distinct elements, two valid draw sequences that give the same ordering are equal. |
| `DatasetLoader.StripHeader` | src/App.jsx:38 | `slice(1)`: it has length `max(0, len(data)-1)`, and the first row followed by the result gives back the data. An empty input gives an empty result without error. |
| `DatasetLoader.BuildDeck` | src/App.jsx:38-43 | The deck is `Shuffled(StripHeader(data), rand)`, of length `max(0, len(data)-1)`, and is a permutation of `data[1..]`. |
| `DatasetLoader.ExampleDeck` | src/App.jsx:34-43 | For any header row `h` and any data rows `r1`, `r2`, the deck built from `[h, r1, r2]` is `[r1, r2]` or `[r2, r1]`, for any valid draws. |
| `DatasetLoader.HeaderOnlyDeck` | src/App.jsx:38-43 | For any header row, a dataset holding only that row gives an empty deck. |
| `Quiz.Field` | src/App.jsx:79 | Reading field `k` of a card is defined exactly when the row has more than `k` fields, and then gives that field. |
| `Quiz.NextIndex` | src/App.jsx:62 | `(prev + 1) % length` stays below the length. From the last card it goes to 0, and otherwise to the next card. |
| `Quiz.AdvanceTimes` | src/App.jsx:59-63 | The cursor after `k` presses of "next" (`handleNext`) from card `i` is still a valid card index, below `n`. |
| `Quiz.StepsTo` | src/App.jsx:62 | The number of advances from card `i` to card `c` is less than the deck length. |
| `Quiz.AdvanceTimesWraps` | src/App.jsx:62 | Within one round, `k` advances from card `i` land on `i + k`, or on `i + k - n` after the wrap. |
| `Quiz.EveryCardComesUp` | src/App.jsx:62 | After `n` advances the cursor is back where it started, and every card is reached within the round. |
| `Quiz.Session.constructor` | src/App.jsx:7-10 | The initial state: empty deck, cursor 0, answer hidden, loading. |
| `Quiz.Session.CompleteLoad` | src/App.jsx:38-44 | The deck becomes the shuffle of the data rows and loading ends. The cursor is 0, the answer is hidden and the invariant holds. |
| `Quiz.Session.FailLoad` | src/App.jsx:47-49 | Loading ends and the deck stays empty. |
| `Quiz.Session.Advance` | src/App.jsx:59-63 | Hides the answer and sets the cursor to `NextIndex(cursor, len(deck))`. The deck and `loading` stay the same, and the cursor stays in bounds. |
| `Quiz.Session.Reveal` | src/App.jsx:89 | Shows the answer and changes nothing else, so a second call is a no-op. |
| `Quiz.Session.View` | src/App.jsx:65-95 | While loading, only the loading message. With an empty deck, only the no-data message. Otherwise the card at the cursor, with progress `cursor + 1` in `[1, len(deck)]` against `len(deck)`, fields 1 and 2 as prompt and hint, and field 3 only once revealed. A card shows exactly when the session is `Interactive()`. |
| `Quiz.HeaderOnlySession` | src/App.jsx:38-66 | Loading a dataset that holds only its header row, whatever that row is, leaves an empty deck. The session is not interactive and renders the no-data message. |
| `Quiz.ExampleSession` | src/App.jsx:7-101 | Loading the example data, revealing twice and advancing once ends on card 1 with the answer hidden. The deck is one of the two orders. |

## Left out

- Network access and decoding (src/App.jsx:15-19): this is I/O. The source reads only the first chunk of the response body. Whatever text that chunk holds is outside the model.
- CSV parsing with `Papa.parse` and `skipEmptyLines` (src/App.jsx:31-34): it is a library whose code is not part of this model. Its output `results.data` is taken as the input `data`.
- `Math.random` and `Math.floor` (src/App.jsx:24): this is floating-point randomness. It is replaced by the draw oracle `rand`, constrained by `ValidDraws`. Uniformity is reduced to the bijection between draw sequences and orderings, and no probability is modelled.
- React hooks, the asynchronous `useEffect` lifecycle, batching of state updates, JSX, styles and the DOM (src/App.jsx:1-13, 53-54, 71-188): this is framework plumbing. Only the state fields and their transitions are modelled. `CompleteLoad` and `FailLoad` require `loading` because the effect runs once.
- `console.error` logging in the `catch` (src/App.jsx:48): this is console I/O. Only its state effect is kept, in `FailLoad`.
- How an `undefined` field is displayed (src/App.jsx:79, 82, 95): a missing field is `None`, and its rendering is not modelled.
