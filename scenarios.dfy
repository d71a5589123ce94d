/** Concrete uses of the wrapper, each with the outcome the library's own test suite
    expects of it (index.spec.ts), derived here from the operations' contracts. */
module Scenarios {
  import opened Outcomes
  import opened Stages
  import opened Buffers
  import opened Folds
  import opened Sequences

  /** The comparator of the `maxWith` and `minWith` tests: 1, 0 or -1. */
  function Compare(a: int, b: int): int
  {
    if a > b then 1 else if a == b then 0 else -1
  }

  /** A one-digit number as the text `+=` appends for it. */
  function Digit(d: int): string
  {
    if 0 <= d <= 9 then [(48 + d) as char] else "?"
  }

  /** `Sequence([0, 1, 2]).chunked(2).toArray()` is `[[0, 1], [2]]`. */
  method ChunkedPartial() returns (val: seq<seq<int>>)
    ensures val == [[0, 1], [2]]
  {
    var sq := new Sequence(ArrayOf([0, 1, 2]));
    var chunks := sq.Chunked(2, (x: seq<int>, i: nat) => x);
    val := chunks.ToArray();
    var s := [0, 1, 2];
    assert Chunks(s, 2) == [([0, 1], 0), ([2], 1)] by {
      assert s[..2] == [0, 1] && s[2..] == [2];
    }
  }

  /** `Sequence([1..10]).windowed(5, 3, true).toArray()` is
      `[[1, 2, 3, 4, 5], [4, 5, 6, 7, 8], [7, 8, 9, 10], [10]]`. */
  method WindowedPartial() returns (val: seq<seq<int>>)
    ensures val == [[1, 2, 3, 4, 5], [4, 5, 6, 7, 8], [7, 8, 9, 10], [10]]
  {
    var s := [1, 2, 3, 4, 5, 6, 7, 8, 9, 10];
    var sq := new Sequence(ArrayOf(s));
    var windows := sq.Windowed(5, 3, true, (x: seq<int>, i: nat) => x);
    val := windows.ToArray();
    assert s[0..5] == [1, 2, 3, 4, 5] && s[3..8] == [4, 5, 6, 7, 8];
    assert s[6..] == [7, 8, 9, 10] && s[9..] == [10];
    assert Windows(s, 5, 3, true) == [([1, 2, 3, 4, 5], 4), ([4, 5, 6, 7, 8], 7), ([7, 8, 9, 10], 10), ([10], 10)];
  }

  /** `Sequence([0, 1, 2, 0, 1, 2]).distinct().toArray()` is `[0, 1, 2]`. */
  method DistinctRepeated() returns (val: seq<int>)
    ensures val == [0, 1, 2]
  {
    var s := [0, 1, 2, 0, 1, 2];
    var sq := new Sequence(ArrayOf(s));
    sq := sq.Distinct();
    val := sq.ToArray();
    var round := [0, 1, 2];
    assert s == round + round;
    DistinctIgnoresSeen(round, round);
    DistinctOfUnique(round);
  }

  /** `generateSequence(0, (x, i) => x + i).take(5).toArray()` is `[0, 1, 3, 6, 10]`. */
  method GenerateWithIndex() returns (val: seq<int>)
    ensures val == [0, 1, 3, 6, 10]
  {
    var fn := (x: int, i: nat) => x + i;
    var sq := GenerateSequence(Value(0), fn, 5);
    var taken := sq.Take(5);
    val := sq.ToArray();
    var r := Iterates(0, fn, 5);
    assert r[0] == 0 && r[1] == 1 && r[2] == 3 && r[3] == 6 && r[4] == 10;
    assert r == [0, 1, 3, 6, 10];
  }

  /** `Sequence([0, 1, 2, -1]).maxWith(compare)` is -1: a later element replaces the current
      one when the current one compares above it. */
  method MaxWithSwap() returns (val: Result<int>)
    ensures val == Success(-1)
  {
    var s := [0, 1, 2, -1];
    var sq := new Sequence(ArrayOf(s));
    val := sq.MaxWith(Compare);
    var better := Signals(Compare, 1);
    assert Compare(0, 1) == -1 && Compare(0, 2) == -1 && Compare(0, -1) == 1;
    assert !better(0, 1) && !better(0, 2) && better(0, -1);
    assert BestIndex(s[..1], better) == 0;
    BestIndexStep(s, 1, better, 0);
    BestIndexStep(s, 2, better, 0);
    BestIndexStep(s, 3, better, 0);
    assert s[..4] == s;
  }

  /** `Sequence([0, 1, 2]).minWith(compare)` is 2. */
  method MinWithAscending() returns (val: Result<int>)
    ensures val == Success(2)
  {
    var s := [0, 1, 2];
    var sq := new Sequence(ArrayOf(s));
    val := sq.MinWith(Compare);
    var better := Signals(Compare, -1);
    assert Compare(0, 1) == -1 && Compare(1, 2) == -1;
    assert better(0, 1) && better(1, 2);
    assert BestIndex(s[..1], better) == 0;
    BestIndexStep(s, 1, better, 0);
    BestIndexStep(s, 2, better, 1);
    assert s[..3] == s;
  }

  /** `Sequence([0, 1, 2]).joinTo("result: ", ",", "[", "]", 2, "|", (x) => x + 1)` is
      `"result: [1,2,|]"`: the separator before the marker stays. */
  method JoinToAll() returns (val: string)
    ensures val == "result: [1,2,|]"
  {
    var s := [0, 1, 2];
    var sq := new Sequence(ArrayOf(s));
    var transform := (x: int, i: nat) => Digit(x + 1);
    val := sq.JoinTo("result: ", ",", "[", "]", 2, "|", transform);
    var parts := Mapped(s[..2], transform);
    assert parts == ["1", "2"];
    assert parts[..1] == ["1"];
    assert Joined(parts, ",") == "1,2,";
    JoinTextTruncated("result: ", s, ",", "[", "]", 2, "|", transform);
  }

  /** `Sequence([0, 1, 2]).single((x, i) => x * x - i !== 0)` is 2. */
  method SingleWithIndex() returns (val: Result<int>)
    ensures val == Success(2)
  {
    var s := [0, 1, 2];
    var sq := new Sequence(ArrayOf(s));
    var fn := (x: int, i: nat) => x * x - i != 0;
    val := sq.Single(fn);
    assert s[..2][..1] == [0];
    assert Filtered(s[..1], fn) == [];
    assert Filtered(s[..2], fn) == [];
    assert Filtered(s, fn) == [2];
  }

  /** `Sequence([0, 1, 2]).average()` is 1. */
  method AverageNumbers() returns (val: Result<Quotient>)
    ensures val == Success(Finite(1.0))
  {
    var s := [Number(0), Number(1), Number(2)];
    var sq := new Sequence(ArrayOf(s));
    val := Average(sq);
    var values := Mapped(s, NumberValue);
    assert values == [0, 1, 2];
    assert values[..2][..1] == [0];
    assert Folds.Sum(values[..1]) == 0;
    assert Folds.Sum(values[..2]) == 1;
    assert Folds.Sum(values) == 3;
  }

  /** `Sequence([0, 1, 2]).drop(-1)` fails with "Negative drop size". */
  method DropNegative() returns (val: Result<Sequence<int>>)
    ensures val == Failure(NegativeDropSize)
  {
    var sq := new Sequence(ArrayOf([0, 1, 2]));
    val := sq.Drop(-1);
  }

  /** `Sequence([0, 1, 2]).elementAt(-1)` fails with "Element not found". */
  method ElementAtNegative() returns (val: Result<int>)
    ensures val == Failure(ElementNotFound)
  {
    var sq := new Sequence(ArrayOf([0, 1, 2]));
    val := sq.ElementAt(-1);
  }
}
