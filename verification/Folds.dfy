/**
 The loop that all three hashes have: a key read word by word, and an accumulator updated with each word.
 When every step is a permutation, so is the loop, and one word decides the outcome.
 */
module Folds {
  import opened Bytes

  /** The words of `n` bytes at the front of a key, in order. */
  function Words<X>(key: seq<Byte>, n: nat, load: seq<Byte> --> X): seq<X>
    requires n > 0 && forall b: seq<Byte> :: |b| == n ==> load.requires(b)
  {
    if |key| < n then [] else [load(key[..n])] + Words(key[n..], n, load)
  }

  /** The bytes after the last whole word. */
  function Rest(key: seq<Byte>, n: nat): (t: seq<Byte>)
    requires n > 0
    ensures |t| < n
  {
    if |key| < n then key else Rest(key[n..], n)
  }

  function Fold<S, X>(step: (S, X) -> S, s: S, xs: seq<X>): S
    decreases |xs|
  {
    if xs == [] then s else Fold(step, step(s, xs[0]), xs[1..])
  }

  /** The loop run backwards. */
  function Unfold<S, X>(undo: (S, X) -> S, t: S, xs: seq<X>): S {
    if xs == [] then t else undo(Unfold(undo, t, xs[1..]), xs[0])
  }

  /** For a fixed word the step is a permutation of the accumulators. */
  ghost predicate Undoes<S(!new), X(!new)>(step: (S, X) -> S, undo: (S, X) -> S) {
    forall s, x, t :: step(s, x) == t <==> s == undo(t, x)
  }

  /** For a fixed accumulator the step is a bijection from words to accumulators. */
  ghost predicate Solves<S(!new), X(!new)>(step: (S, X) -> S, solve: (S, S) -> X) {
    forall s, x, t :: step(s, x) == t <==> x == solve(s, t)
  }

  /** For fixed words the whole loop is a permutation of the accumulators. */
  lemma {:induction false} FoldPermutes<S(!new), X(!new)>(step: (S, X) -> S, undo: (S, X) -> S, s: S, xs: seq<X>, t: S)
    requires Undoes(step, undo)
    ensures Fold(step, s, xs) == t <==> s == Unfold(undo, t, xs)
    decreases |xs|
  {
    if xs != [] {
      FoldPermutes(step, undo, step(s, xs[0]), xs[1..], t);
    }
  }

  lemma {:induction false} FoldConcat<S, X>(step: (S, X) -> S, s: S, xs: seq<X>, ys: seq<X>)
    ensures Fold(step, s, xs + ys) == Fold(step, Fold(step, s, xs), ys)
    decreases |xs|
  {
    if xs == [] {
      assert xs + ys == ys;
    } else {
      assert (xs + ys)[1..] == xs[1..] + ys;
      FoldConcat(step, step(s, xs[0]), xs[1..], ys);
    }
  }

  /** Between fixed words, one word and the outcome of the loop determine each other. */
  lemma OneWordDecides<S(!new), X(!new)>(
      step: (S, X) -> S, undo: (S, X) -> S, solve: (S, S) -> X, s: S, xs: seq<X>, x: X, ys: seq<X>, t: S)
    requires Undoes(step, undo) && Solves(step, solve)
    ensures Fold(step, s, xs + [x] + ys) == t <==> x == solve(Fold(step, s, xs), Unfold(undo, t, ys))
  {
    var before := Fold(step, s, xs);
    assert xs + [x] + ys == xs + ([x] + ys);
    FoldConcat(step, s, xs, [x] + ys);
    assert ([x] + ys)[1..] == ys;
    FoldPermutes(step, undo, step(before, x), ys, t);
  }

  /** A whole word between whole words and anything is read as one word; what is left over is not touched. */
  lemma {:induction false} WordsAround<X>(pre: seq<Byte>, word: seq<Byte>, suf: seq<Byte>, n: nat, load: seq<Byte> --> X)
    requires n > 0 && |pre| % n == 0 && |word| == n && forall b: seq<Byte> :: |b| == n ==> load.requires(b)
    ensures Words(pre + word + suf, n, load) == Words(pre, n, load) + [load(word)] + Words(suf, n, load)
    ensures Rest(pre + word + suf, n) == Rest(suf, n)
    decreases |pre|
  {
    var key := pre + word + suf;
    if |pre| < n {
      assert pre == [] by {
        SmallMultiple(|pre|, n);
      }
      assert key[..n] == word && key[n..] == suf;
    } else {
      assert key[..n] == pre[..n] && key[n..] == pre[n..] + word + suf;
      LessOneWord(|pre|, n);
      WordsAround(pre[n..], word, suf, n, load);
    }
  }

  lemma {:induction false} WordsBefore<X>(pre: seq<Byte>, suf: seq<Byte>, n: nat, load: seq<Byte> --> X)
    requires n > 0 && |pre| % n == 0 && |suf| < n && forall b: seq<Byte> :: |b| == n ==> load.requires(b)
    ensures Words(pre + suf, n, load) == Words(pre, n, load) && Rest(pre + suf, n) == suf
    decreases |pre|
  {
    var key := pre + suf;
    if |pre| < n {
      assert pre == [] by {
        SmallMultiple(|pre|, n);
      }
      assert key == suf;
    } else {
      assert key[..n] == pre[..n] && key[n..] == pre[n..] + suf;
      LessOneWord(|pre|, n);
      WordsBefore(pre[n..], suf, n, load);
    }
  }

  lemma SmallMultiple(m: nat, n: nat)
    requires n > 0 && m % n == 0 && m < n
    ensures m == 0
  {
  }

  lemma LessOneWord(m: nat, n: nat)
    requires n > 0 && m % n == 0 && m >= n
    ensures (m - n) % n == 0
  {
    assert m == n * (m / n);
    assert m - n == n * (m / n - 1) + 0;
    Remainder(m - n, n, m / n - 1);
  }

  lemma Remainder(x: nat, n: nat, q: int)
    requires n > 0 && x == n * q
    ensures x % n == 0
  {
    var d := x / n - q;
    assert n * d == n * (x / n) - n * q;
    assert x % n == -(n * d);
    assert d >= 1 ==> n * d >= n * 1;
    assert d <= -1 ==> n * d <= n * -1;
  }

  /** One turn of the loop: the next word of what is left of the key is read and taken in. */
  lemma NextWord<S, X>(step: (S, X) -> S, s: S, key: seq<Byte>, at: nat, n: nat, load: seq<Byte> --> X)
    requires n > 0 && at + n <= |key| && forall b: seq<Byte> :: |b| == n ==> load.requires(b)
    ensures Fold(step, s, Words(key[at..], n, load))
         == Fold(step, step(s, load(key[at..at + n])), Words(key[at + n..], n, load))
    ensures Rest(key[at..], n) == Rest(key[at + n..], n)
  {
    var rest := key[at..];
    assert rest[..n] == key[at..at + n] && rest[n..] == key[at + n..];
    var x, xs := load(rest[..n]), Words(rest[n..], n, load);
    assert ([x] + xs)[1..] == xs;
  }

  /** The loop is over when no whole word is left. */
  lemma NothingLeft<S, X>(step: (S, X) -> S, s: S, key: seq<Byte>, at: nat, n: nat, load: seq<Byte> --> X)
    requires n > 0 && at <= |key| < at + n && forall b: seq<Byte> :: |b| == n ==> load.requires(b)
    ensures Fold(step, s, Words(key[at..], n, load)) == s && Rest(key[at..], n) == key[at..]
  {
  }
}
