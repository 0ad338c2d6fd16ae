/** The Python containers the scripts fill: dictionaries where a later entry
    overwrites an earlier one, the key order of a dictionary, and `sorted` on a
    set of strings. */
module Collections {
  import opened Wrappers
  import opened Text

  /** The dictionary a loop `d[k] = v` over `pairs` leaves behind: later pairs overwrite earlier ones. */
  function LastWins<K(!new), V>(pairs: seq<(K, V)>): map<K, V>
  {
    if pairs == [] then map[]
    else LastWins(pairs[..|pairs| - 1])[pairs[|pairs| - 1].0 := pairs[|pairs| - 1].1]
  }

  /** The keys of the dictionary are the keys of the pairs. */
  lemma {:induction false} LastWinsKeys<K(!new), V>(pairs: seq<(K, V)>)
    ensures forall k :: k in LastWins(pairs) <==> exists i :: 0 <= i < |pairs| && pairs[i].0 == k
  {
    if pairs != [] {
      var init := pairs[..|pairs| - 1];
      LastWinsKeys(init);
      assert forall i :: 0 <= i < |init| ==> init[i] == pairs[i];
    }
  }

  /** The value stored under a key is the one of the last pair with that key. */
  lemma {:induction false} LastWinsAt<K(!new), V>(pairs: seq<(K, V)>, i: nat)
    requires i < |pairs|
    requires forall j :: i < j < |pairs| ==> pairs[j].0 != pairs[i].0
    ensures pairs[i].0 in LastWins(pairs) && LastWins(pairs)[pairs[i].0] == pairs[i].1
    decreases |pairs|
  {
    var n := |pairs| - 1;
    if i < n {
      var init := pairs[..n];
      forall j | i < j < |init| ensures init[j].0 != init[i].0 {
        assert init[j] == pairs[j];
      }
      LastWinsAt(init, i);
      assert init[i] == pairs[i];
    }
  }

  /** Every stored value is the value of some pair with that key. */
  lemma {:induction false} LastWinsValue<K(!new), V>(pairs: seq<(K, V)>, k: K)
    requires k in LastWins(pairs)
    ensures exists j :: 0 <= j < |pairs| && pairs[j].0 == k && pairs[j].1 == LastWins(pairs)[k]
  {
    var n := |pairs| - 1;
    if pairs[n].0 != k {
      var init := pairs[..n];
      LastWinsValue(init, k);
      var j :| 0 <= j < |init| && init[j].0 == k && init[j].1 == LastWins(init)[k];
      assert pairs[j] == init[j];
    }
  }

  /** Appending one pair to a dictionary's history overwrites that one key and nothing else. */
  lemma LastWinsSnoc<K(!new), V>(pairs: seq<(K, V)>, k: K, v: V)
    ensures LastWins(pairs + [(k, v)]) == LastWins(pairs)[k := v]
  {
    assert (pairs + [(k, v)])[..|pairs|] == pairs;
  }

  /** The elements of `xs` without repeats, in the order they first appear: the
      key order of a Python dictionary (or a `dict.fromkeys`) filled from `xs`. */
  function FirstAppearance<T(==,!new)>(xs: seq<T>): (r: seq<T>)
    ensures forall i, j :: 0 <= i < j < |r| ==> r[i] != r[j]
    ensures forall x :: x in r <==> x in xs
  {
    if xs == [] then []
    else
      var r := FirstAppearance(xs[..|xs| - 1]);
      assert forall x :: x in xs <==> x in xs[..|xs| - 1] || x == xs[|xs| - 1];
      if xs[|xs| - 1] in r then r else r + [xs[|xs| - 1]]
  }

  /** `s` is in strictly increasing string order. */
  predicate StrictlySorted(s: seq<string>)
  {
    forall i, j :: 0 <= i < j < |s| ==> LexLess(s[i], s[j])
  }

  /** Puts `x` in its place in a strictly sorted list, unless it is already there. */
  function Insert(x: string, s: seq<string>): (r: seq<string>)
    requires StrictlySorted(s)
    ensures StrictlySorted(r)
    ensures forall y :: y in r <==> y in s || y == x
    ensures |r| <= |s| + 1
  {
    if s == [] then [x]
    else if LexLess(x, s[0]) then
      assert forall j :: 0 < j < |s| ==> LexLess(s[0], s[j]);
      forall j | 0 <= j < |s| ensures LexLess(x, s[j]) {
        if j > 0 { LexLessTransitive(x, s[0], s[j]); }
      }
      [x] + s
    else if x == s[0] then s
    else
      LexLessTotal(x, s[0]);
      var tail := Insert(x, s[1..]);
      assert forall y :: y in tail ==> LexLess(s[0], y);
      [s[0]] + tail
  }

  /** Python `sorted(set(xs))`: the distinct elements of `xs` in increasing order. */
  function SortedSet(xs: seq<string>): (r: seq<string>)
    ensures StrictlySorted(r)
    ensures forall y :: y in r <==> y in xs
    ensures |r| <= |xs|
  {
    if xs == [] then []
    else
      assert forall y :: y in xs <==> y in xs[..|xs| - 1] || y == xs[|xs| - 1];
      Insert(xs[|xs| - 1], SortedSet(xs[..|xs| - 1]))
  }

  /** A strictly sorted list has no repeats, so positions identify elements. */
  lemma StrictlySortedDistinct(s: seq<string>, i: nat, j: nat)
    requires StrictlySorted(s) && i < |s| && j < |s| && s[i] == s[j]
    ensures i == j
  {
    if i < j { LexLessIrreflexive(s[i]); }
    if j < i { LexLessIrreflexive(s[j]); }
  }

  /** A strictly sorted list has no repeats. */
  lemma StrictlySortedNoRepeats(s: seq<string>)
    requires StrictlySorted(s)
    ensures forall i, j :: 0 <= i < j < |s| ==> s[i] != s[j]
  {
    forall i, j | 0 <= i < j < |s| ensures s[i] != s[j] {
      LexLessIrreflexive(s[i]);
    }
  }

  /** The concatenation of `f(x)` over `xs`, in order: what `groupby(...).apply(f)`
      stacks up, one block per key. */
  function ConcatMap<X, T>(xs: seq<X>, f: X -> seq<T>): seq<T>
  {
    if xs == [] then [] else f(xs[0]) + ConcatMap(xs[1..], f)
  }

  /** The total length of the blocks `f(x)` over `xs`. */
  function TotalLength<X, T>(xs: seq<X>, f: X -> seq<T>): nat
  {
    if xs == [] then 0 else |f(xs[0])| + TotalLength(xs[1..], f)
  }

  /** The concatenation is as long as its blocks together. */
  lemma {:induction false} ConcatMapLength<X, T>(xs: seq<X>, f: X -> seq<T>)
    ensures |ConcatMap(xs, f)| == TotalLength(xs, f)
  {
    if xs != [] {
      ConcatMapLength(xs[1..], f);
    }
  }

  /** The `k`-th block sits, unchanged, right after the `k` blocks before it. */
  lemma {:induction false} ConcatMapBlock<X, T>(xs: seq<X>, f: X -> seq<T>, k: nat)
    requires k < |xs|
    ensures var off := TotalLength(xs[..k], f);
            && off + |f(xs[k])| <= |ConcatMap(xs, f)|
            && ConcatMap(xs, f)[off..off + |f(xs[k])|] == f(xs[k])
  {
    var head := f(xs[0]);
    var tail := ConcatMap(xs[1..], f);
    ConcatMapLength(xs[1..], f);
    if k == 0 {
      assert xs[..0] == [];
    } else {
      ConcatMapBlock(xs[1..], f, k - 1);
      assert xs[..k][0] == xs[0] && xs[..k][1..] == xs[1..][..k - 1];
      assert xs[1..][k - 1] == xs[k];
      var off1 := TotalLength(xs[1..][..k - 1], f);
      var n := |f(xs[k])|;
      assert (head + tail)[|head| + off1..|head| + off1 + n] == tail[off1..off1 + n];
    }
  }

  /** Position `i` of the `k`-th block, read off the concatenation. */
  lemma ConcatMapAt<X, T>(xs: seq<X>, f: X -> seq<T>, k: nat, i: nat)
    requires k < |xs| && i < |f(xs[k])|
    ensures TotalLength(xs[..k], f) + i < |ConcatMap(xs, f)|
    ensures ConcatMap(xs, f)[TotalLength(xs[..k], f) + i] == f(xs[k])[i]
  {
    ConcatMapBlock(xs, f, k);
    var off := TotalLength(xs[..k], f);
    assert ConcatMap(xs, f)[off..off + |f(xs[k])|][i] == f(xs[k])[i];
  }

  /** Adding one more key adds its block's length. */
  lemma {:induction false} TotalLengthSnoc<X, T>(xs: seq<X>, x: X, f: X -> seq<T>)
    ensures TotalLength(xs + [x], f) == TotalLength(xs, f) + |f(x)|
  {
    if xs == [] {
      assert [] + [x] == [x];
      assert [x][1..] == [];
    } else {
      assert (xs + [x])[0] == xs[0] && (xs + [x])[1..] == xs[1..] + [x];
      TotalLengthSnoc(xs[1..], x, f);
    }
  }

  /** The keys of `s` in increasing order: Python `sorted(s)` on a set of strings. */
  method SortedKeys(s: set<string>) returns (r: seq<string>)
    ensures StrictlySorted(r)
    ensures forall y :: y in r <==> y in s
  {
    r := [];
    var rest := s;
    while rest != {}
      invariant StrictlySorted(r)
      invariant rest <= s
      invariant forall y :: y in r <==> y in s && y !in rest
      decreases rest
    {
      var x :| x in rest;
      r := Insert(x, r);
      rest := rest - {x};
    }
  }

  /** A loop that applies `parse` to every element in turn and stops at the
      first exception it raises: the results in order, or that exception. */
  function CollectAll<T>(xs: seq<string>, parse: string -> Result<T>): Result<seq<T>>
  {
    if xs == [] then Ok([])
    else
      match CollectAll(xs[..|xs| - 1], parse)
      case Err(e) => Err(e)
      case Ok(ys) =>
        match parse(xs[|xs| - 1])
        case Err(e) => Err(e)
        case Ok(y) => Ok(ys + [y])
  }

  /** When nothing raises, there is one result per element, each the element's own. */
  lemma {:induction false} CollectAllOk<T>(xs: seq<string>, parse: string -> Result<T>)
    requires CollectAll(xs, parse).Ok?
    ensures |CollectAll(xs, parse).value| == |xs|
    ensures forall i :: 0 <= i < |xs| ==> parse(xs[i]) == Ok(CollectAll(xs, parse).value[i])
  {
    if xs != [] {
      var init := xs[..|xs| - 1];
      CollectAllOk(init, parse);
      assert forall i :: 0 <= i < |init| ==> init[i] == xs[i];
    }
  }

  /** The loop raises exactly when some element raises, and then it raises what the first such element raises. */
  lemma {:induction false} CollectAllErr<T>(xs: seq<string>, parse: string -> Result<T>)
    ensures CollectAll(xs, parse).Err? <==> exists i :: 0 <= i < |xs| && parse(xs[i]).Err?
    ensures CollectAll(xs, parse).Err? ==>
              exists i :: 0 <= i < |xs| && parse(xs[i]) == Err(CollectAll(xs, parse).error) &&
                          forall j :: 0 <= j < i ==> parse(xs[j]).Ok?
  {
    if xs != [] {
      var n := |xs| - 1;
      var init := xs[..n];
      CollectAllErr(init, parse);
      assert forall i :: 0 <= i < n ==> init[i] == xs[i];
      if CollectAll(init, parse).Ok? {
        CollectAllOk(init, parse);
      }
    }
  }

  /** Once the loop has raised, the later elements change nothing. */
  lemma {:induction false} CollectAllErrorStays<T>(xs: seq<string>, parse: string -> Result<T>, i: nat)
    requires i <= |xs| && CollectAll(xs[..i], parse).Err?
    ensures CollectAll(xs, parse) == CollectAll(xs[..i], parse)
  {
    if i < |xs| {
      var init := xs[..|xs| - 1];
      assert init[..i] == xs[..i];
      CollectAllErrorStays(init, parse, i);
    } else {
      assert xs[..i] == xs;
    }
  }

  /** A loop `d[k] = v` over the pairs `parse` makes of the elements, stopping at the first exception. */
  function DictFrom<K(!new), V>(xs: seq<string>, parse: string -> Result<(K, V)>): Result<map<K, V>>
  {
    match CollectAll(xs, parse)
    case Err(e) => Err(e)
    case Ok(pairs) => Ok(LastWins(pairs))
  }

  /** A key holds the value of the last element with that key. */
  lemma DictFromEntries<K(!new), V>(xs: seq<string>, parse: string -> Result<(K, V)>, i: nat, k: K, v: V)
    requires DictFrom(xs, parse).Ok? && i < |xs| && parse(xs[i]) == Ok((k, v))
    requires forall j :: i < j < |xs| && parse(xs[j]).Ok? ==> parse(xs[j]).value.0 != k
    ensures k in DictFrom(xs, parse).value && DictFrom(xs, parse).value[k] == v
  {
    var pairs := CollectAll(xs, parse).value;
    CollectAllOk(xs, parse);
    LastWinsAt(pairs, i);
  }

  /** Every key of the dictionary comes from some element, with that element's value. */
  lemma DictFromKeys<K(!new), V>(xs: seq<string>, parse: string -> Result<(K, V)>, k: K)
    requires DictFrom(xs, parse).Ok?
    ensures k in DictFrom(xs, parse).value <==>
              exists i :: 0 <= i < |xs| && parse(xs[i]).Ok? && parse(xs[i]).value.0 == k
    ensures k in DictFrom(xs, parse).value ==>
              exists i :: 0 <= i < |xs| && parse(xs[i]) == Ok((k, DictFrom(xs, parse).value[k]))
  {
    var pairs := CollectAll(xs, parse).value;
    CollectAllOk(xs, parse);
    LastWinsKeys(pairs);
    if k in LastWins(pairs) {
      LastWinsValue(pairs, k);
    }
  }

  /** The loop that fills a dictionary from `xs`. */
  method FillDict<K(!new), V>(xs: seq<string>, parse: string -> Result<(K, V)>) returns (r: Result<map<K, V>>)
    ensures r == DictFrom(xs, parse)
  {
    var d: map<K, V> := map[];
    ghost var pairs: seq<(K, V)> := [];
    for i := 0 to |xs|
      invariant CollectAll(xs[..i], parse) == Ok(pairs)
      invariant d == LastWins(pairs)
    {
      assert xs[..i + 1][..i] == xs[..i];
      var entry := parse(xs[i]);
      if entry.Err? {
        CollectAllErrorStays(xs, parse, i + 1);
        return Err(entry.error);
      }
      LastWinsSnoc(pairs, entry.value.0, entry.value.1);
      d := d[entry.value.0 := entry.value.1];
      pairs := pairs + [entry.value];
    }
    assert xs[..|xs|] == xs;
    return Ok(d);
  }

  /** A loop that writes one result per element and stops at the first
      exception: what was written before it, and that exception. */
  function WriteUntilError<T, U>(xs: seq<T>, emit: T -> Result<U>): (seq<U>, Option<PyError>)
  {
    if xs == [] then ([], None)
    else
      var (written, err) := WriteUntilError(xs[..|xs| - 1], emit);
      if err.Some? then (written, err)
      else match emit(xs[|xs| - 1])
        case Ok(y) => (written + [y], None)
        case Err(e) => (written, Some(e))
  }

  /** Without an exception every element yields its result, in order; and the
      loop raises nothing exactly when no element raises. */
  lemma {:induction false} WriteUntilErrorComplete<T, U>(xs: seq<T>, emit: T -> Result<U>)
    ensures WriteUntilError(xs, emit).1.None? <==> forall i :: 0 <= i < |xs| ==> emit(xs[i]).Ok?
    ensures WriteUntilError(xs, emit).1.None? ==>
              var written := WriteUntilError(xs, emit).0;
              |written| == |xs| && forall i :: 0 <= i < |xs| ==> emit(xs[i]) == Ok(written[i])
  {
    if xs != [] {
      var init := xs[..|xs| - 1];
      WriteUntilErrorComplete(init, emit);
      assert forall i :: 0 <= i < |init| ==> xs[i] == init[i];
    }
  }

  /** With an exception, what was written is the results of the elements before
      the first raising one, and the exception is that element's. */
  lemma {:induction false} WriteUntilErrorStops<T, U>(xs: seq<T>, emit: T -> Result<U>)
    requires WriteUntilError(xs, emit).1.Some?
    ensures var (written, err) := WriteUntilError(xs, emit);
            exists k :: 0 <= k < |xs| && |written| == k && emit(xs[k]) == Err(err.value) &&
              forall i :: 0 <= i < k ==> emit(xs[i]) == Ok(written[i])
  {
    var init := xs[..|xs| - 1];
    var (written, err) := WriteUntilError(init, emit);
    assert forall i :: 0 <= i < |init| ==> xs[i] == init[i];
    if err.Some? {
      WriteUntilErrorStops(init, emit);
      var k :| 0 <= k < |init| && |written| == k && emit(init[k]) == Err(err.value) &&
                forall i :: 0 <= i < k ==> emit(init[i]) == Ok(written[i]);
      assert emit(xs[k]) == Err(err.value);
    } else {
      WriteUntilErrorComplete(init, emit);
    }
  }
}
