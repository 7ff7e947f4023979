/**
 The frequency analysis of lab_1/part2/main.py: char_frequency, which counts
 every character of a text and divides by the text's length, and the stable
 sort by descending frequency done in main. Python dicts keep insertion order,
 so a dict is modelled as its key order plus its key-to-value map.
 */
module Frequency {

  /** An insertion-ordered dict from characters to V. */
  datatype OrderedMap<V> = OrderedMap(keys: seq<char>, entries: map<char, V>)
  {
    predicate Valid()
    {
      && NoDuplicates(keys)
      && forall c :: c in entries <==> c in keys
    }
  }

  predicate NoDuplicates(s: seq<char>)
  {
    forall i, j | 0 <= i < j < |s| :: s[i] != s[j]
  }

  lemma HeadNotInTail(d: seq<char>)
    requires NoDuplicates(d) && d != []
    ensures d[0] !in d[1..]
  {
    assert forall i | 0 <= i < |d[1..]| :: d[1..][i] == d[i + 1];
  }

  /** The distinct characters of s, in order of first occurrence. */
  function Distinct(s: string): (r: seq<char>)
    ensures NoDuplicates(r)
    ensures forall c :: c in r <==> c in s
  {
    if s == [] then []
    else
      var p := Distinct(s[..|s| - 1]);
      assert forall c :: c in s <==> c in s[..|s| - 1] || c == s[|s| - 1] by {
        assert s == s[..|s| - 1] + [s[|s| - 1]];
      }
      if s[|s| - 1] in p then p else p + [s[|s| - 1]]
  }

  /** The position of the first occurrence of c in s. */
  function FirstIndex(s: string, c: char): (n: nat)
    requires c in s
    ensures n < |s| && s[n] == c && c !in s[..n]
  {
    var p := s[..|s| - 1];
    assert s == p + [s[|s| - 1]];
    if c in p then
      var n := FirstIndex(p, c);
      assert s[..n] == p[..n];
      n
    else
      |s| - 1
  }

  /** Distinct lists the characters in order of their first occurrence in s. */
  lemma {:induction false} DistinctInFirstOccurrenceOrder(s: string)
    ensures forall i, j | 0 <= i < j < |Distinct(s)| ::
      FirstIndex(s, Distinct(s)[i]) < FirstIndex(s, Distinct(s)[j])
  {
    if s != [] {
      var p, x := s[..|s| - 1], s[|s| - 1];
      var d, r := Distinct(p), Distinct(s);
      DistinctInFirstOccurrenceOrder(p);
      assert forall k | 0 <= k < |d| :: FirstIndex(s, d[k]) == FirstIndex(p, d[k]) by {
        forall k | 0 <= k < |d| ensures FirstIndex(s, d[k]) == FirstIndex(p, d[k]) {
          assert d[k] in p;
        }
      }
      forall i, j | 0 <= i < j < |r| ensures FirstIndex(s, r[i]) < FirstIndex(s, r[j]) {
        assert r[i] == d[i];
        if j < |d| {
          assert r[j] == d[j];
        } else {
          assert r[j] == x && x !in p;
          assert FirstIndex(p, d[i]) < |p|;
        }
      }
    }
  }

  /** The relative frequency of a character that occurs in the text. */
  function Frequency(text: string, c: char): real
    requires c in text
  {
    multiset(text)[c] as real / |text| as real
  }

  /** char_frequency: count each distinct character, then divide by the length. */
  method CharFrequency(text: string) returns (percent: OrderedMap<real>)
    ensures percent.Valid()
    ensures percent.keys == Distinct(text)
    ensures forall c | c in percent.entries :: c in text && percent.entries[c] == Frequency(text, c)
    ensures forall i, j | 0 <= i < j < |percent.keys| ::
      FirstIndex(text, percent.keys[i]) < FirstIndex(text, percent.keys[j])
  {
    var count := CountOccurrences(text);
    percent := OrderedMap([], map[]);
    for j := 0 to |count.keys|
      invariant Divided(text, count, j, percent)
    {
      DivideStep(text, count, j, percent);
      var c := count.keys[j];
      percent := OrderedMap(percent.keys + [c], percent.entries[c := count.entries[c] as real / |text| as real]);
    }
    assert count.keys[..|count.keys|] == count.keys;
    DistinctInFirstOccurrenceOrder(text);
  }

  /** The counting loop of char_frequency: the dict of occurrence counts. */
  method CountOccurrences(text: string) returns (count: OrderedMap<nat>)
    ensures Counted(text, |text|, count)
    ensures count.Valid()
    ensures count.keys == Distinct(text)
    ensures forall c | c in count.entries :: c in text && count.entries[c] == multiset(text)[c]
    ensures forall i, j | 0 <= i < j < |count.keys| ::
      FirstIndex(text, count.keys[i]) < FirstIndex(text, count.keys[j])
  {
    count := OrderedMap([], map[]);
    for i := 0 to |text|
      invariant Counted(text, i, count)
    {
      var c := text[i];
      CountStep(text, i, count);
      if c in count.entries {
        count := count.(entries := count.entries[c := count.entries[c] + 1]);
      } else {
        count := OrderedMap(count.keys + [c], count.entries[c := 1]);
      }
    }
    assert text[..|text|] == text;
    DistinctInFirstOccurrenceOrder(text);
  }

  /** The counting loop after i characters: the keys seen so far in
      first-occurrence order, each with its number of occurrences. */
  ghost predicate Counted(text: string, i: int, count: OrderedMap<nat>)
    requires 0 <= i <= |text|
  {
    && count.keys == Distinct(text[..i])
    && (forall c :: c in count.entries <==> c in text[..i])
    && forall c | c in count.entries :: count.entries[c] == multiset(text[..i])[c]
  }

  lemma CountStep(text: string, i: int, count: OrderedMap<nat>)
    requires 0 <= i < |text| && Counted(text, i, count)
    ensures var c := text[i];
      c in count.entries ==> Counted(text, i + 1, count.(entries := count.entries[c := count.entries[c] + 1]))
    ensures var c := text[i];
      c !in count.entries ==> Counted(text, i + 1, OrderedMap(count.keys + [c], count.entries[c := 1]))
  {
    var c := text[i];
    assert text[..i + 1] == text[..i] + [c];
    assert text[..i + 1][..i] == text[..i];
    assert multiset(text[..i + 1]) == multiset(text[..i]) + multiset{c};
    if c in count.entries {
      CountSeen(text, i, count);
    } else {
      CountNew(text, i, count);
    }
  }

  lemma CountSeen(text: string, i: int, count: OrderedMap<nat>)
    requires 0 <= i < |text| && Counted(text, i, count) && text[i] in count.entries
    requires text[..i + 1] == text[..i] + [text[i]]
    requires multiset(text[..i + 1]) == multiset(text[..i]) + multiset{text[i]}
    ensures var c := text[i];
      Counted(text, i + 1, count.(entries := count.entries[c := count.entries[c] + 1]))
  {
  }

  lemma CountNew(text: string, i: int, count: OrderedMap<nat>)
    requires 0 <= i < |text| && Counted(text, i, count) && text[i] !in count.entries
    requires text[..i + 1] == text[..i] + [text[i]]
    requires multiset(text[..i + 1]) == multiset(text[..i]) + multiset{text[i]}
    ensures var c := text[i];
      Counted(text, i + 1, OrderedMap(count.keys + [c], count.entries[c := 1]))
  {
    assert text[..i + 1][..i] == text[..i];
  }

  /** The dividing loop after j keys of the counts. */
  ghost predicate Divided(text: string, count: OrderedMap<nat>, j: int, percent: OrderedMap<real>)
    requires 0 <= j <= |count.keys|
  {
    && percent.keys == count.keys[..j]
    && (forall c :: c in percent.entries <==> c in count.keys[..j])
    && forall c | c in percent.entries :: c in text && percent.entries[c] == Frequency(text, c)
  }

  lemma DivideStep(text: string, count: OrderedMap<nat>, j: int, percent: OrderedMap<real>)
    requires Counted(text, |text|, count)
    requires 0 <= j < |count.keys| && Divided(text, count, j, percent)
    ensures var c := count.keys[j];
      c in count.entries && Divided(text, count, j + 1,
        OrderedMap(percent.keys + [c], percent.entries[c := count.entries[c] as real / |text| as real]))
  {
    var c := count.keys[j];
    assert text[..|text|] == text;
    assert c in Distinct(text);
    assert count.keys[..j + 1] == count.keys[..j] + [c];
  }

  lemma {:induction false} OccurrencesAtMostLength(s: string, c: char)
    ensures multiset(s)[c] <= |s|
  {
    if s != [] {
      OccurrencesAtMostLength(s[1..], c);
      assert s == [s[0]] + s[1..];
    }
  }

  /** Every reported frequency lies in (0, 1]. */
  lemma FrequencyBounds(text: string, c: char)
    requires c in text
    ensures 0.0 < Frequency(text, c) <= 1.0
  {
    OccurrencesAtMostLength(text, c);
    var n := multiset(text)[c] as real;
    var len := |text| as real;
    DivisionMonotone(n, len, len);
    SelfRatio(|text|);
    PositiveRatio(n, len);
  }

  /** Dividing all counts by the same positive length keeps their order. */
  lemma FrequencyOrderIsCountOrder(text: string, c: char, d: char)
    requires c in text && d in text
    ensures Frequency(text, c) <= Frequency(text, d) <==> multiset(text)[c] <= multiset(text)[d]
  {
    var a, b, len := multiset(text)[c] as real, multiset(text)[d] as real, |text| as real;
    DivisionMonotone(a, b, len);
  }

  lemma DivisionMonotone(a: real, b: real, n: real)
    requires n > 0.0
    ensures a / n <= b / n <==> a <= b
  {
    DivTimes(a, n);
    DivTimes(b, n);
    if a <= b {
      assert (b / n - a / n) * n == b - a;
    } else {
      assert (a / n - b / n) * n == a - b;
    }
  }

  lemma DivTimes(a: real, n: real)
    requires n != 0.0
    ensures a / n * n == a
  {
  }

  lemma AddFractions(a: real, b: real, n: real)
    requires n != 0.0
    ensures a / n + b / n == (a + b) / n
  {
  }

  /** The sum of the counts of the characters of d. */
  function CountSum(d: seq<char>, m: multiset<char>): nat
  {
    if d == [] then 0 else m[d[0]] + CountSum(d[1..], m)
  }

  /** The sum of the frequencies of the characters of d. */
  function FrequencySum(d: seq<char>, text: string): real
    requires forall c | c in d :: c in text
  {
    if d == [] then 0.0 else Frequency(text, d[0]) + FrequencySum(d[1..], text)
  }

  lemma {:induction false} CountSumAdd(d: seq<char>, m: multiset<char>, x: char)
    requires NoDuplicates(d)
    ensures CountSum(d, m + multiset{x}) == CountSum(d, m) + (if x in d then 1 else 0)
  {
    if d != [] {
      CountSumAdd(d[1..], m, x);
      assert x in d <==> x == d[0] || x in d[1..];
      HeadNotInTail(d);
    }
  }

  /** Over the distinct characters of a text the counts add up to its length. */
  lemma {:induction false} CountsSumToLength(text: string, d: seq<char>)
    requires NoDuplicates(d)
    requires forall c | c in text :: c in d
    ensures CountSum(d, multiset(text)) == |text|
  {
    if text == [] {
      CountSumEmpty(d);
    } else {
      var p := text[..|text| - 1];
      var x := text[|text| - 1];
      assert text == p + [x];
      CountsSumToLength(p, d);
      CountSumAdd(d, multiset(p), x);
    }
  }

  lemma {:induction false} CountSumEmpty(d: seq<char>)
    ensures CountSum(d, multiset{}) == 0
  {
    if d != [] {
      CountSumEmpty(d[1..]);
    }
  }

  /** The summed frequencies are the summed counts over the length. */
  lemma {:induction false} FrequencySumIsRatio(d: seq<char>, text: string)
    requires text != []
    requires forall c | c in d :: c in text
    ensures FrequencySum(d, text) == CountSum(d, multiset(text)) as real / |text| as real
  {
    if d == [] {
    } else {
      FrequencySumIsRatio(d[1..], text);
      AddFractions(multiset(text)[d[0]] as real, CountSum(d[1..], multiset(text)) as real, |text| as real);
    }
  }

  /** The frequencies of the table add up to exactly 1. */
  lemma FrequenciesSumToOne(text: string)
    requires text != []
    ensures FrequencySum(Distinct(text), text) == 1.0
  {
    FrequencySumIsRatio(Distinct(text), text);
    CountsSumToLength(text, Distinct(text));
    SelfRatio(|text|);
  }

  lemma PositiveRatio(a: real, n: real)
    requires a > 0.0 && n > 0.0
    ensures a / n > 0.0
  {
    DivTimes(a, n);
  }

  lemma SelfRatio(k: nat)
    requires k > 0
    ensures k as real / k as real == 1.0
  {
  }

  // ---- The stable sort by descending frequency ----

  /** A (character, frequency) pair of the table. */
  type Item = (char, real)

  /** The table's items in its key order. */
  function Items(t: OrderedMap<real>): (r: seq<Item>)
    requires t.Valid()
    ensures |r| == |t.keys|
    ensures forall i | 0 <= i < |r| :: r[i].0 == t.keys[i] && r[i].1 == t.entries[t.keys[i]]
  {
    seq(|t.keys|, i requires 0 <= i < |t.keys| => (t.keys[i], t.entries[t.keys[i]]))
  }

  predicate NonIncreasing(s: seq<Item>)
  {
    forall i, j | 0 <= i < j < |s| :: s[i].1 >= s[j].1
  }

  /** The items of s whose frequency is v, in their order in s. */
  function WithValue(s: seq<Item>, v: real): seq<Item>
  {
    if s == [] then []
    else (if s[0].1 == v then [s[0]] else []) + WithValue(s[1..], v)
  }

  /** Put x after every item whose frequency is at least its own. */
  function Insert(x: Item, s: seq<Item>): seq<Item>
  {
    if s == [] then [x]
    else if s[0].1 >= x.1 then
      [s[0]] + Insert(x, s[1..])
    else [x] + s
  }

  /** sorted(..., key=percent_dict.get, reverse=True): an insertion sort that
      keeps items of equal frequency in their original order. */
  function SortDescending(s: seq<Item>): seq<Item>
  {
    if s == [] then []
    else
      Insert(s[|s| - 1], SortDescending(s[..|s| - 1]))
  }

  lemma InsertBehindPermutes(x: Item, s: seq<Item>)
    requires s != [] && s[0].1 >= x.1
    requires multiset(Insert(x, s[1..])) == multiset(s[1..]) + multiset{x}
    ensures multiset(Insert(x, s)) == multiset(s) + multiset{x}
  {
    assert Insert(x, s) == [s[0]] + Insert(x, s[1..]);
    assert s == [s[0]] + s[1..];
  }

  lemma {:induction false} InsertPermutes(x: Item, s: seq<Item>)
    ensures multiset(Insert(x, s)) == multiset(s) + multiset{x}
  {
    if s != [] && s[0].1 >= x.1 {
      InsertPermutes(x, s[1..]);
      InsertBehindPermutes(x, s);
    }
  }

  /** The sort only reorders: the result is a permutation of the input. */
  lemma {:induction false} SortDescendingPermutes(s: seq<Item>)
    ensures multiset(SortDescending(s)) == multiset(s)
  {
    if s != [] {
      SortDescendingPermutes(s[..|s| - 1]);
      InsertPermutes(s[|s| - 1], SortDescending(s[..|s| - 1]));
      assert s == s[..|s| - 1] + [s[|s| - 1]];
    }
  }

  lemma {:induction false} WithValueAppend(a: seq<Item>, b: seq<Item>, v: real)
    ensures WithValue(a + b, v) == WithValue(a, v) + WithValue(b, v)
  {
    if a == [] {
      assert a + b == b;
    } else {
      var head := if a[0].1 == v then [a[0]] else [];
      assert (a + b)[0] == a[0];
      assert (a + b)[1..] == a[1..] + b;
      assert WithValue(a + b, v) == head + WithValue(a[1..] + b, v);
      WithValueAppend(a[1..], b, v);
      assert WithValue(a, v) == head + WithValue(a[1..], v);
    }
  }

  lemma {:induction false} WithValueNone(s: seq<Item>, v: real)
    requires forall i | 0 <= i < |s| :: s[i].1 != v
    ensures WithValue(s, v) == []
  {
    if s != [] {
      WithValueNone(s[1..], v);
    }
  }

  lemma WithValueSingleton(x: Item, v: real)
    ensures WithValue([x], v) == if x.1 == v then [x] else []
  {
    assert [x][1..] == [];
  }

  /** Every item of s has frequency at most v. */
  predicate AtMost(s: seq<Item>, v: real)
  {
    forall i | 0 <= i < |s| :: s[i].1 <= v
  }

  lemma ConsNonIncreasing(x: Item, t: seq<Item>)
    requires NonIncreasing(t) && AtMost(t, x.1)
    ensures NonIncreasing([x] + t)
  {
    var r := [x] + t;
    forall i, j | 0 <= i < j < |r| ensures r[i].1 >= r[j].1 {
      assert r[j] == t[j - 1];
      if i > 0 {
        assert r[i] == t[i - 1];
      }
    }
  }

  lemma NonIncreasingTail(s: seq<Item>)
    requires s != [] && NonIncreasing(s)
    ensures NonIncreasing(s[1..]) && AtMost(s[1..], s[0].1)
  {
    assert forall i | 0 <= i < |s[1..]| :: s[1..][i] == s[i + 1];
  }

  lemma {:induction false} InsertNonIncreasing(x: Item, s: seq<Item>)
    requires NonIncreasing(s)
    ensures NonIncreasing(Insert(x, s))
  {
    if s != [] {
      NonIncreasingTail(s);
      if s[0].1 >= x.1 {
        var t := Insert(x, s[1..]);
        InsertNonIncreasing(x, s[1..]);
        InsertPermutes(x, s[1..]);
        forall i | 0 <= i < |t| ensures t[i].1 <= s[0].1 {
          assert t[i] in multiset(t);
          assert t[i] == x || t[i] in multiset(s[1..]);
        }
        ConsNonIncreasing(s[0], t);
      } else {
        ConsNonIncreasing(x, s);
      }
    }
  }

  /** Inserting in front of items of lower frequency appends x to its class. */
  lemma InsertInFront(x: Item, s: seq<Item>, v: real)
    requires s != [] && NonIncreasing(s) && s[0].1 < x.1
    ensures WithValue([x] + s, v) == WithValue(s, v) + WithValue([x], v)
  {
    WithValueSingleton(x, v);
    WithValueAppend([x], s, v);
    if x.1 == v {
      WithValueNone(s, v);
    }
  }

  /** Inserting behind the first item keeps that item at the head of its class. */
  lemma InsertBehindWithValue(x: Item, s: seq<Item>, v: real)
    requires s != [] && s[0].1 >= x.1
    requires WithValue(Insert(x, s[1..]), v) == WithValue(s[1..], v) + WithValue([x], v)
    ensures WithValue(Insert(x, s), v) == WithValue(s, v) + WithValue([x], v)
  {
    var h := if s[0].1 == v then [s[0]] else [];
    var rest, last := WithValue(s[1..], v), WithValue([x], v);
    WithValueCons(s[0], Insert(x, s[1..]), v);
    WithValueCons(s[0], s[1..], v);
    assert [s[0]] + s[1..] == s;
    assert h + (rest + last) == (h + rest) + last;
  }

  lemma WithValueCons(y: Item, t: seq<Item>, v: real)
    ensures WithValue([y] + t, v) == (if y.1 == v then [y] else []) + WithValue(t, v)
  {
    assert ([y] + t)[1..] == t;
  }

  lemma {:induction false} InsertWithValue(x: Item, s: seq<Item>, v: real)
    requires NonIncreasing(s)
    ensures WithValue(Insert(x, s), v) == WithValue(s, v) + WithValue([x], v)
  {
    if s == [] {
      assert WithValue(s, v) == [];
    } else if s[0].1 >= x.1 {
      NonIncreasingTail(s);
      InsertWithValue(x, s[1..], v);
      InsertBehindWithValue(x, s, v);
    } else {
      InsertInFront(x, s, v);
    }
  }

  /** The sort is non-increasing and stable: for every frequency, the items
      carrying it appear in the same order as in the input. */
  lemma {:induction false} SortDescendingIsStable(s: seq<Item>)
    ensures NonIncreasing(SortDescending(s))
    ensures forall v :: WithValue(SortDescending(s), v) == WithValue(s, v)
  {
    if s != [] {
      var p, x := s[..|s| - 1], s[|s| - 1];
      assert s == p + [x];
      SortDescendingIsStable(p);
      InsertNonIncreasing(x, SortDescending(p));
      forall v ensures WithValue(SortDescending(s), v) == WithValue(s, v) {
        InsertWithValue(x, SortDescending(p), v);
        WithValueAppend(p, [x], v);
      }
    }
  }

  lemma {:induction false} MultiplicityAtMostOne<T>(a: seq<T>, c: T)
    requires forall i, j | 0 <= i < j < |a| :: a[i] != a[j]
    ensures multiset(a)[c] <= 1
  {
    if a != [] {
      MultiplicityAtMostOne(a[1..], c);
      assert a == [a[0]] + a[1..];
      assert forall i | 0 <= i < |a[1..]| :: a[1..][i] == a[i + 1];
    }
  }

  lemma TwoOccurrences<T>(a: seq<T>, i: int, j: int)
    requires 0 <= i < j < |a| && a[i] == a[j]
    ensures multiset(a)[a[i]] >= 2
  {
    assert a == a[..j] + a[j..];
    assert a[..j][i] == a[i];
    assert a[j..][0] == a[j];
    assert multiset(a) == multiset(a[..j]) + multiset(a[j..]);
  }

  /** Each item of a permutation of a table's items is one of its entries. */
  lemma PermutedItemsAreEntries(table: OrderedMap<real>, order: seq<Item>)
    requires table.Valid()
    requires multiset(order) == multiset(Items(table))
    ensures forall i | 0 <= i < |order| :: order[i].0 in table.entries && order[i].1 == table.entries[order[i].0]
  {
    var items := Items(table);
    forall i | 0 <= i < |order|
      ensures order[i].0 in table.entries && order[i].1 == table.entries[order[i].0]
    {
      assert order[i] in multiset(items);
      var k :| 0 <= k < |items| && items[k] == order[i];
    }
  }

  /** A permutation of a table's items names each key at most once. */
  lemma PermutedItemsDistinct(table: OrderedMap<real>, order: seq<Item>)
    requires table.Valid()
    requires multiset(order) == multiset(Items(table))
    ensures forall i, j | 0 <= i < j < |order| :: order[i].0 != order[j].0
  {
    var items := Items(table);
    PermutedItemsAreEntries(table, order);
    assert forall p, q | 0 <= p < q < |items| :: items[p] != items[q];
    forall i, j | 0 <= i < j < |order| ensures order[i].0 != order[j].0 {
      if order[i].0 == order[j].0 {
        TwoOccurrences(order, i, j);
        MultiplicityAtMostOne(items, order[i]);
      }
    }
  }

  /** A permutation of a table's items names every key. */
  lemma PermutedItemsCover(table: OrderedMap<real>, order: seq<Item>, c: char)
    requires table.Valid()
    requires multiset(order) == multiset(Items(table))
    requires c in table.entries
    ensures exists i | 0 <= i < |order| :: order[i].0 == c
  {
    var items := Items(table);
    var k :| 0 <= k < |table.keys| && table.keys[k] == c;
    assert items[k] in multiset(order);
    var i :| 0 <= i < |order| && order[i] == items[k];
  }

  /** The fill loop after i keys of order: those keys in that order, each
      with its value in the table. */
  ghost predicate Filled(table: OrderedMap<real>, order: seq<Item>, i: int, sorted: OrderedMap<real>)
    requires 0 <= i <= |order|
  {
    && |sorted.keys| == i
    && (forall k | 0 <= k < i :: sorted.keys[k] == order[k].0)
    && (forall c :: c in sorted.entries <==> c in sorted.keys)
    && forall c | c in sorted.entries :: c in table.entries && sorted.entries[c] == table.entries[c]
  }

  lemma FillStep(table: OrderedMap<real>, order: seq<Item>, i: int, sorted: OrderedMap<real>)
    requires 0 <= i < |order| && Filled(table, order, i, sorted)
    requires order[i].0 in table.entries
    ensures var c := order[i].0;
      Filled(table, order, i + 1, OrderedMap(sorted.keys + [c], sorted.entries[c := table.entries[c]]))
  {
  }

  /** After the fill loop: the new table lists exactly the keys of a
      permutation of the table's items, in that order, with the table's values. */
  lemma FillDone(table: OrderedMap<real>, order: seq<Item>, sorted: OrderedMap<real>)
    requires table.Valid()
    requires multiset(order) == multiset(Items(table))
    requires Filled(table, order, |order|, sorted)
    ensures sorted.Valid()
    ensures sorted.entries == table.entries
    ensures Items(sorted) == order
  {
    PermutedItemsAreEntries(table, order);
    PermutedItemsDistinct(table, order);
    forall c | c in table.entries ensures c in sorted.entries {
      PermutedItemsCover(table, order, c);
    }
    assert sorted.Valid();
    assert forall k | 0 <= k < |order| :: Items(sorted)[k] == order[k];
  }

  /** The loop of main that fills sorted_dict in the order of the sorted keys. */
  method SortByFrequency(table: OrderedMap<real>) returns (sorted: OrderedMap<real>)
    requires table.Valid()
    ensures sorted.Valid()
    ensures sorted.entries == table.entries
    ensures Items(sorted) == SortDescending(Items(table))
    ensures multiset(Items(sorted)) == multiset(Items(table))
    ensures NonIncreasing(Items(sorted))
    ensures forall v :: WithValue(Items(sorted), v) == WithValue(Items(table), v)
  {
    var order := SortDescending(Items(table));
    SortDescendingPermutes(Items(table));
    PermutedItemsAreEntries(table, order);
    sorted := OrderedMap([], map[]);
    for i := 0 to |order|
      invariant Filled(table, order, i, sorted)
    {
      var c := order[i].0;
      FillStep(table, order, i, sorted);
      sorted := OrderedMap(sorted.keys + [c], sorted.entries[c := table.entries[c]]);
    }
    FillDone(table, order, sorted);
    SortDescendingIsStable(Items(table));
  }
}
