/**
 * Vote counting as both phases do it: a dictionary `votes` filled by
 * `votes[c] = votes.get(c, 0) + 1`, its maximum `max(votes.values())`, the
 * names tied at that maximum, and `random.choice` among them.
 */
module Counting {

  /**
   * A Python dictionary from names to counts: `order` is its insertion order
   * (the order `votes.items()` visits), `counts` its contents.
   */
  datatype Counter = Counter(order: seq<string>, counts: map<string, nat>)

  /** The insertion order lists every key exactly once. */
  ghost predicate ValidCounter(t: Counter) {
    && (forall c :: c in t.order <==> c in t.counts)
    && forall i, j :: 0 <= i < j < |t.order| ==> t.order[i] != t.order[j]
  }

  /** `votes[c] = votes.get(c, 0) + 1`. */
  function Bump(t: Counter, c: string): (r: Counter)
    ensures ValidCounter(t) ==> ValidCounter(r)
    ensures c in r.counts && r.counts[c] == (if c in t.counts then t.counts[c] else 0) + 1
    ensures forall d :: d != c ==> (d in r.counts <==> d in t.counts) && (d in t.counts ==> r.counts[d] == t.counts[d])
  {
    if c in t.counts then Counter(t.order, t.counts[c := t.counts[c] + 1])
    else Counter(t.order + [c], t.counts[c := 1])
  }

  /** The dictionary after counting `xs` in order, starting from `{}`. */
  function Tally(xs: seq<string>): (t: Counter)
    ensures ValidCounter(t)
  {
    if xs == [] then Counter([], map[]) else Bump(Tally(xs[..|xs| - 1]), xs[|xs| - 1])
  }

  /** Counting one more ballot bumps its count. */
  lemma TallySnoc(xs: seq<string>, x: string)
    ensures Tally(xs + [x]) == Bump(Tally(xs), x)
  {
    assert (xs + [x])[..|xs|] == xs;
  }

  /**
   * Counting gives each name exactly the number of times it occurs, has a key
   * for exactly the names that occur, and lists each key once.
   */
  lemma {:induction false} TallyCounts(xs: seq<string>)
    ensures ValidCounter(Tally(xs))
    ensures forall c :: c in Tally(xs).counts <==> c in xs
    ensures forall c :: c in Tally(xs).counts ==> Tally(xs).counts[c] == multiset(xs)[c]
  {
    if xs != [] {
      var init, last := xs[..|xs| - 1], xs[|xs| - 1];
      assert xs == init + [last];
      TallyCounts(init);
    }
  }

  /** `p` occurs in `xs` before `q` first does. */
  ghost predicate FirstBefore(xs: seq<string>, p: string, q: string) {
    exists a :: 0 <= a < |xs| && xs[a] == p && forall b :: 0 <= b <= a ==> xs[b] != q
  }

  /** `order` lists keys in the order they first occur in `xs`. */
  ghost predicate FirstOccurrenceOrder(order: seq<string>, xs: seq<string>) {
    forall i, j :: 0 <= i < j < |order| ==> FirstBefore(xs, order[i], order[j])
  }

  /** An earlier occurrence stays earlier when the list grows. */
  lemma FirstBeforeSnoc(xs: seq<string>, p: string, q: string, x: string)
    requires FirstBefore(xs, p, q)
    ensures FirstBefore(xs + [x], p, q)
  {
    var a :| 0 <= a < |xs| && xs[a] == p && forall b :: 0 <= b <= a ==> xs[b] != q;
    assert (xs + [x])[a] == p && forall b :: 0 <= b <= a ==> (xs + [x])[b] != q;
  }

  /** Any name of `xs` occurs before a name that `xs` lacks. */
  lemma FirstBeforeNew(xs: seq<string>, p: string, x: string)
    requires p in xs && x !in xs
    ensures FirstBefore(xs + [x], p, x)
  {
    var a :| 0 <= a < |xs| && xs[a] == p;
    assert (xs + [x])[a] == p && forall b :: 0 <= b <= a ==> (xs + [x])[b] != x;
  }

  /** A ballot for a name already counted keeps the order. */
  lemma OrderAfterRepeat(order: seq<string>, xs: seq<string>, x: string)
    requires FirstOccurrenceOrder(order, xs)
    ensures FirstOccurrenceOrder(order, xs + [x])
  {
    forall i, j | 0 <= i < j < |order|
      ensures FirstBefore(xs + [x], order[i], order[j])
    {
      FirstBeforeSnoc(xs, order[i], order[j], x);
    }
  }

  /** A ballot for a new name appends it to the order. */
  lemma OrderAfterNew(order: seq<string>, xs: seq<string>, x: string)
    requires FirstOccurrenceOrder(order, xs)
    requires forall c :: c in order ==> c in xs
    requires x !in xs
    ensures FirstOccurrenceOrder(order + [x], xs + [x])
  {
    var keys := order + [x];
    forall i, j | 0 <= i < j < |keys|
      ensures FirstBefore(xs + [x], keys[i], keys[j])
    {
      assert keys[i] == order[i];
      if j < |order| {
        assert keys[j] == order[j];
        FirstBeforeSnoc(xs, order[i], order[j], x);
      } else {
        assert keys[j] == x;
        FirstBeforeNew(xs, order[i], x);
      }
    }
  }

  /** The keys of the dictionary are in insertion order, the order `votes.items()` visits. */
  lemma {:induction false} TallyOrder(xs: seq<string>)
    ensures FirstOccurrenceOrder(Tally(xs).order, xs)
  {
    if xs != [] {
      var init, last := xs[..|xs| - 1], xs[|xs| - 1];
      assert xs == init + [last];
      TallyOrder(init);
      TallyCounts(init);
      var t := Tally(init);
      if last in t.counts {
        assert Tally(xs).order == t.order;
        OrderAfterRepeat(t.order, init, last);
      } else {
        assert Tally(xs).order == t.order + [last];
        OrderAfterNew(t.order, init, last);
      }
    }
  }

  /** The sum of the counts of `keys`. */
  function Total(keys: seq<string>, counts: map<string, nat>): nat
    requires forall k :: k in keys ==> k in counts
  {
    if keys == [] then 0 else Total(keys[..|keys| - 1], counts) + counts[keys[|keys| - 1]]
  }

  lemma {:induction false} TotalBump(keys: seq<string>, counts: map<string, nat>, c: string)
    requires forall k :: k in keys ==> k in counts
    requires c in counts
    requires forall i, j :: 0 <= i < j < |keys| ==> keys[i] != keys[j]
    ensures Total(keys, counts[c := counts[c] + 1]) == Total(keys, counts) + (if c in keys then 1 else 0)
  {
    if keys != [] {
      var init := keys[..|keys| - 1];
      assert forall k :: k in init ==> k in keys;
      TotalBump(init, counts, c);
      assert keys[|keys| - 1] == c ==> c !in init;
      assert c in keys <==> c in init || keys[|keys| - 1] == c;
    }
  }

  lemma {:induction false} TotalFresh(keys: seq<string>, counts: map<string, nat>, c: string, v: nat)
    requires forall k :: k in keys ==> k in counts
    requires c !in keys
    ensures Total(keys, counts[c := v]) == Total(keys, counts)
  {
    if keys != [] {
      TotalFresh(keys[..|keys| - 1], counts, c, v);
    }
  }

  /** Every ballot is counted once: the counts add up to the number of ballots. */
  lemma {:induction false} TallyTotal(xs: seq<string>)
    ensures ValidCounter(Tally(xs))
    ensures Total(Tally(xs).order, Tally(xs).counts) == |xs|
  {
    if xs != [] {
      var init, last := xs[..|xs| - 1], xs[|xs| - 1];
      TallyTotal(init);
      var t := Tally(init);
      if last in t.counts {
        assert Tally(xs) == Counter(t.order, t.counts[last := t.counts[last] + 1]);
        TotalBump(t.order, t.counts, last);
      } else {
        assert Tally(xs) == Counter(t.order + [last], t.counts[last := 1]);
        TotalFresh(t.order, t.counts, last, 1);
        assert (t.order + [last])[..|t.order|] == t.order;
      }
    }
  }

  /** `max(votes.values())`. */
  function MaxCount(keys: seq<string>, counts: map<string, nat>): (m: nat)
    requires keys != []
    requires forall k :: k in keys ==> k in counts
    ensures exists k :: k in keys && counts[k] == m
    ensures forall k :: k in keys ==> counts[k] <= m
  {
    if |keys| == 1 then counts[keys[0]]
    else
      var rest := MaxCount(keys[1..], counts);
      if counts[keys[0]] > rest then counts[keys[0]] else rest
  }

  /** `[name for name, count in votes.items() if count == max_votes]`. */
  function Leaders(keys: seq<string>, counts: map<string, nat>, m: nat): (r: seq<string>)
    requires forall k :: k in keys ==> k in counts
    ensures forall c :: c in r <==> c in keys && counts[c] == m
  {
    if keys == [] then []
    else (if counts[keys[0]] == m then [keys[0]] else []) + Leaders(keys[1..], counts, m)
  }

  /** `random.choice(xs)`, with the random draw supplied by the caller. */
  function Pick(xs: seq<string>, draw: nat): (r: string)
    requires xs != []
    ensures r in xs
  {
    xs[draw % |xs|]
  }

  /** Every element can be the draw's outcome. */
  lemma PickReaches(xs: seq<string>, i: nat)
    requires i < |xs|
    ensures Pick(xs, i) == xs[i]
  {
  }

  /** The names of a well-formed, non-empty dictionary tied at its maximum count. */
  function TopNames(t: Counter): (top: seq<string>)
    requires ValidCounter(t) && t.order != []
    ensures top != []
    ensures forall c :: c in top ==> c in t.order
  {
    Leaders(t.order, t.counts, MaxCount(t.order, t.counts))
  }

  /** The tie-break among the most frequent names of `xs`. */
  function Plurality(xs: seq<string>, draw: nat): (r: string)
    requires xs != []
    ensures r in xs
  {
    TallyCounts(xs);
    assert xs[0] in Tally(xs).order;
    Pick(TopNames(Tally(xs)), draw)
  }

  /**
   * The names tied at the maximum of the tally of a non-empty `xs` are
   * exactly the names that occur in `xs` at least as often as any other.
   */
  lemma TopNamesOfTally(xs: seq<string>)
    requires xs != []
    ensures Tally(xs).order != []
    ensures forall c :: c in TopNames(Tally(xs)) <==>
              c in xs && forall d :: d in xs ==> multiset(xs)[d] <= multiset(xs)[c]
  {
    TallyCounts(xs);
    var t := Tally(xs);
    assert xs[0] in t.order;
    var m := MaxCount(t.order, t.counts);
    var k :| k in t.order && t.counts[k] == m;
    forall c | c in xs && (forall d :: d in xs ==> multiset(xs)[d] <= multiset(xs)[c])
      ensures c in TopNames(t)
    {
      assert k in xs;
      assert t.counts[k] == multiset(xs)[k] <= multiset(xs)[c] == t.counts[c];
      assert c in t.order && t.counts[c] == m;
    }
    forall c | c in TopNames(t)
      ensures c in xs && forall d :: d in xs ==> multiset(xs)[d] <= multiset(xs)[c]
    {
      assert c in t.order && t.counts[c] == m;
      forall d | d in xs ensures multiset(xs)[d] <= multiset(xs)[c] {
        assert d in t.order;
      }
    }
  }

  /**
   * The tie-break picks a name that occurs in `xs` at least as often as any
   * other; and each name that does can be picked, by some draw.
   */
  lemma PluralityIsMostFrequent(xs: seq<string>, draw: nat)
    requires xs != []
    ensures Plurality(xs, draw) in xs
    ensures forall c :: c in xs ==> multiset(xs)[c] <= multiset(xs)[Plurality(xs, draw)]
    ensures forall c :: c in xs && (forall d :: d in xs ==> multiset(xs)[d] <= multiset(xs)[c]) ==>
              exists r: nat :: Plurality(xs, r) == c
  {
    TopNamesOfTally(xs);
    var top := TopNames(Tally(xs));
    assert Plurality(xs, draw) in top;
    forall c | c in top ensures exists r: nat :: Plurality(xs, r) == c {
      var i :| 0 <= i < |top| && top[i] == c;
      PickReaches(top, i);
      assert Plurality(xs, i) == c;
    }
  }

  /** The counting loop of the night-phase fallback: `for choice in choices: votes[choice] = votes.get(choice, 0) + 1`. */
  method CountVotes(xs: seq<string>) returns (votes: Counter)
    ensures votes == Tally(xs)
  {
    votes := Counter([], map[]);
    var i := 0;
    while i < |xs|
      invariant 0 <= i <= |xs|
      invariant votes == Tally(xs[..i])
    {
      assert xs[..i + 1][..i] == xs[..i];
      votes := Bump(votes, xs[i]);
      i := i + 1;
    }
    assert xs[..i] == xs;
  }
}
