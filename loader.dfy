/** The dataset loader: the parse callback of src/App.jsx turns the parsed CSV
    rows into the quiz deck by dropping the header row and shuffling the rest.
    Fetching, decoding and CSV parsing are not modelled: the parsed rows
    (`results.data`) are an input.
 */
module DatasetLoader {
  import opened FisherYates

  /** One CSV record, fields addressed by position. */
  type Row = seq<string>

  /** `results.data.slice(1)`: drop the header row; an empty input stays empty. */
  function StripHeader(data: seq<Row>): (rows: seq<Row>)
    ensures |rows| == if |data| == 0 then 0 else |data| - 1
    ensures |data| > 0 ==> data == [data[0]] + rows
  {
    if |data| == 0 then [] else data[1..]
  }

  /** Copies the data rows into a fresh array, shuffles it in place and hands back the deck. */
  method BuildDeck(data: seq<Row>, rand: seq<nat>) returns (deck: seq<Row>)
    requires ValidDraws(rand, |StripHeader(data)|)
    ensures deck == Shuffled(StripHeader(data), rand)
    ensures |deck| == if |data| == 0 then 0 else |data| - 1
    ensures multiset(deck) == multiset(StripHeader(data))
  {
    var rows := StripHeader(data);
    var arr := new Row[|rows|](k requires 0 <= k < |rows| => rows[k]);
    assert arr[..] == rows;
    ghost var swaps;
    var shuffled;
    shuffled, swaps := ShuffleArray(arr, rand);
    deck := shuffled[..];
    ShuffledPermutes(rows, rand);
  }

  /** A header row and two data rows, in the CSV layout the quiz expects. */
  const ExampleHeader: Row := ["Col0", "Col1", "Col2", "Col3"]
  const ExampleRow1: Row := ["x", "What is 2+2?", "basic math", "4"]
  const ExampleRow2: Row := ["y", "Capital of France?", "geography", "Paris"]
  const ExampleData: seq<Row> := [ExampleHeader, ExampleRow1, ExampleRow2]

  /** Whatever the draws, a header plus two data rows gives a deck of those two rows, in one order or the other. */
  lemma ExampleDeck(header: Row, r1: Row, r2: Row, rand: seq<nat>)
    requires ValidDraws(rand, 2)
    ensures var deck := Shuffled(StripHeader([header, r1, r2]), rand);
            deck == [r1, r2] || deck == [r2, r1]
  {
    var rows := StripHeader([header, r1, r2]);
    assert rows == [r1, r2];
    assert rand[0] == 0;
    assert PassesFrom(rows, rand, 2) == rows;
    var once := PassesFrom(rows, rand, 1);
    assert once == (if rand[1] == 0 then [r2, r1] else [r1, r2]);
    assert PassesFrom(rows, rand, 0) == Swap(once, 0, 0) == once;
  }

  /** Any header row alone gives an empty deck, not an error. */
  lemma HeaderOnlyDeck(header: Row, rand: seq<nat>)
    requires ValidDraws(rand, 0)
    ensures Shuffled(StripHeader([header]), rand) == []
  {
  }
}
