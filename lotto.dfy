/**
 * The '로또' command: six distinct numbers in 1..45, drawn at random until
 * the set is full, shown in ascending order, each with a ball colour by
 * decade.
 *
 * Randomness is an input: `draws` holds the successive values of
 * Math.floor(Math.random() * 45), each in 0..44. With a finite supply the
 * drawing loop may run out before six distinct numbers appear; the source
 * would keep drawing, the model then reports None.
 */
module Lotto {
  import opened Options
  import opened Sequences

  const Lowest: int := 1
  const Highest: int := 45
  const Picks: nat := 6

  /** The five ball colours: red, yellow, green, blue, black. */
  datatype Ball = Red | Yellow | Green | Blue | Black

  /** getLottoBallColor: the first bound (10, 20, 30, 40) the number does not exceed, else black. */
  function BallColor(n: int): Ball
  {
    if n <= 10 then Red
    else if n <= 20 then Yellow
    else if n <= 30 then Green
    else if n <= 40 then Blue
    else Black
  }

  /** The position of a colour in the order of the buckets. */
  function Rank(b: Ball): (k: nat)
    ensures k < 5
  {
    match b
    case Red => 0
    case Yellow => 1
    case Green => 2
    case Blue => 3
    case Black => 4
  }

  /** For a lotto number, the colour is picked by its decade: 1-10, 11-20, 21-30, 31-40, 41-45. */
  lemma BallColorByDecade(n: int)
    requires Lowest <= n <= Highest
    ensures Rank(BallColor(n)) == (n - 1) / 10
    ensures BallColor(n) == [Red, Yellow, Green, Blue, Black][(n - 1) / 10]
  {
  }

  /** Larger numbers never get an earlier colour. */
  lemma BallColorMonotone(a: int, b: int)
    requires a <= b
    ensures Rank(BallColor(a)) <= Rank(BallColor(b))
  {
  }

  /** The numbers drawn by the first k draws (each draw d stands for d + 1). */
  function Drawn(draws: seq<int>, k: nat): set<int>
    requires k <= |draws|
  {
    set i | 0 <= i < k :: draws[i] + 1
  }

  lemma DrawnStep(draws: seq<int>, k: nat)
    requires k < |draws|
    ensures Drawn(draws, k + 1) == Drawn(draws, k) + {draws[k] + 1}
  {
    assert draws[k] + 1 in Drawn(draws, k + 1);
  }

  predicate StrictlyAscending(r: seq<int>)
  {
    forall i, j :: 0 <= i < j < |r| ==> r[i] < r[j]
  }

  /**
   * Array.from(numbers).sort((a, b) => a - b) for a set of numbers at most
   * Highest: the members from k upward, in numeric order.
   */
  function AscendingFrom(s: set<int>, k: int): (r: seq<int>)
    requires forall x :: x in s ==> x <= Highest
    ensures StrictlyAscending(r)
    ensures forall x :: x in r <==> x in s && k <= x
    ensures forall i :: 0 <= i < |r| ==> k <= r[i]
    decreases Highest + 1 - k
  {
    if k > Highest then []
    else
      var rest := AscendingFrom(s, k + 1);
      if k in s then [k] + rest else rest
  }

  /** Sorting the whole set of lotto numbers keeps every number, once, and nothing else. */
  lemma SortedNumbers(s: set<int>)
    requires forall x :: x in s ==> Lowest <= x <= Highest
    ensures var r := AscendingFrom(s, Lowest);
      && |r| == |s|
      && (forall x :: x in r <==> x in s)
      && (forall i :: 0 <= i < |r| ==> Lowest <= r[i] <= Highest)
      && StrictlyAscending(r)
  {
    var r := AscendingFrom(s, Lowest);
    assert Distinct(r);
    DistinctCard(r);
    assert (set x | x in r) == s;
    assert forall i :: 0 <= i < |r| ==> r[i] in s;
  }

  /**
   * generateLottoNumbers: add draw + 1 to the set while it holds fewer than
   * six numbers, then return its members in ascending order. `used` is how
   * many draws were taken.
   */
  method GenerateLottoNumbers(draws: seq<int>) returns (r: Option<seq<int>>, used: nat)
    requires forall i :: 0 <= i < |draws| ==> 0 <= draws[i] < Highest
    ensures used <= |draws|
    ensures r.Some? ==>
      && |r.value| == Picks
      && StrictlyAscending(r.value)
      && (forall i :: 0 <= i < |r.value| ==> Lowest <= r.value[i] <= Highest)
      && (forall x :: x in r.value <==> x in Drawn(draws, used))
      && 0 < used && |Drawn(draws, used - 1)| < Picks
    ensures r.None? <==> used == |draws| && |Drawn(draws, used)| < Picks
  {
    var numbers: set<int> := {};
    var i := 0;
    while |numbers| < Picks && i < |draws|
      invariant 0 <= i <= |draws|
      invariant numbers == Drawn(draws, i)
      invariant forall x :: x in numbers ==> Lowest <= x <= Highest
      invariant i > 0 ==> |Drawn(draws, i - 1)| < Picks
      invariant |numbers| <= Picks
      decreases |draws| - i
    {
      DrawnStep(draws, i);
      numbers := numbers + {draws[i] + 1};
      i := i + 1;
    }
    used := i;
    if |numbers| < Picks {
      return None, used;
    }
    SortedNumbers(numbers);
    r := Some(AscendingFrom(numbers, Lowest));
  }

  /** num.toString().padStart(2, '0') for a lotto number. */
  function TwoDigits(n: int): (s: string)
    requires 0 <= n < 100
    ensures |s| == 2 && '0' <= s[0] <= '9' && '0' <= s[1] <= '9'
  {
    [('0' as int + n / 10) as char, ('0' as int + n % 10) as char]
  }

  /** The value of a string of decimal digits. */
  function DigitsValue(s: string): int
  {
    if |s| == 0 then 0 else DigitsValue(s[..|s| - 1]) * 10 + (s[|s| - 1] as int - '0' as int)
  }

  /** The two-digit label reads back as the number. */
  lemma TwoDigitsRoundTrip(n: int)
    requires 0 <= n < 100
    ensures DigitsValue(TwoDigits(n)) == n
  {
    var s := TwoDigits(n);
    assert s[..1][..0] == [];
    assert DigitsValue(s[..1]) == n / 10;
    assert s[1] as int - '0' as int == n % 10;
  }
}
