/**
  Facts about images of finite sets under a function, used to count selected
  keys, and about a counting loop that unions a set of keys per step.
*/
module Collections {

  /** `{f(x) | x in s}`. */
  ghost function Image<A, B>(s: set<A>, f: A -> B): set<B> {
    set x | x in s :: f(x)
  }

  lemma ImageUnion<A, B>(s: set<A>, t: set<A>, f: A -> B)
    ensures Image(s + t, f) == Image(s, f) + Image(t, f)
  {
  }

  lemma ImageSingleton<A, B>(x: A, f: A -> B)
    ensures Image({x}, f) == {f(x)}
  {
  }

  lemma ImageMember<A, B>(x: A, s: set<A>, f: A -> B)
    requires x in s
    ensures f(x) in Image(s, f)
  {
  }

  lemma ImageEmpty<A, B>(f: A -> B)
    ensures Image({}, f) == {}
  {
  }

  /** The keys `keysAt(t)` for every `t` in `times`, gathered into one set. */
  ghost function UnionOver<K>(times: set<int>, keysAt: int -> set<K>): set<K> {
    set t, k | t in times && k in keysAt(t) :: k
  }

  lemma UnionOverUnion<K>(a: set<int>, b: set<int>, keysAt: int -> set<K>)
    ensures UnionOver(a + b, keysAt) == UnionOver(a, keysAt) + UnionOver(b, keysAt)
  {
  }

  lemma UnionOverSingleton<K>(t: int, keysAt: int -> set<K>)
    ensures UnionOver({t}, keysAt) == keysAt(t)
  {
  }

  lemma UnionOverEmpty<K>(keysAt: int -> set<K>)
    ensures UnionOver({}, keysAt) == {}
  {
  }

  /** `f` sends distinct members of `s` to distinct values. */
  ghost predicate InjectiveOn<A, B>(s: set<A>, f: A -> B) {
    forall x, y :: x in s && y in s && f(x) == f(y) ==> x == y
  }

  /** An injective image has as many members as the set it comes from. */
  lemma {:induction false} ImageCardinality<A, B>(s: set<A>, f: A -> B)
    requires InjectiveOn(s, f)
    ensures |Image(s, f)| == |s|
    decreases |s|
  {
    if s != {} {
      var x :| x in s;
      var rest := s - {x};
      assert InjectiveOn(rest, f);
      ImageCardinality(rest, f);
      ImageUnion(rest, {x}, f);
      ImageSingleton(x, f);
      assert rest + {x} == s;
      assert Image(s, f) == Image(rest, f) + {f(x)};
      assert |Image(s, f)| == |Image(rest, f)| + 1;
    }
  }

  /** `sel` with `keysAt(t)` added for `t = time, time + step, ...` while `t <= maxTime`. */
  function Fill<K>(sel: set<K>, keysAt: int -> set<K>, time: int, maxTime: int, step: nat): (r: set<K>)
    requires step > 0
    ensures sel <= r
    decreases maxTime + 1 - time
  {
    if time > maxTime then sel else Fill(sel + keysAt(time), keysAt, time + step, maxTime, step)
  }

  /** The loop only adds: starting from `sel` is starting from nothing and adding `sel`. */
  lemma {:induction false} FillAdds<K>(sel: set<K>, keysAt: int -> set<K>, time: int, maxTime: int, step: nat)
    requires step > 0
    ensures Fill(sel, keysAt, time, maxTime, step) == sel + Fill({}, keysAt, time, maxTime, step)
    decreases maxTime + 1 - time
  {
    if time <= maxTime {
      var keys := keysAt(time);
      var rest := Fill({}, keysAt, time + step, maxTime, step);
      assert {} + keys == keys;
      FillAdds(sel + keys, keysAt, time + step, maxTime, step);
      FillAdds(keys, keysAt, time + step, maxTime, step);
      assert (sel + keys) + rest == sel + (keys + rest);
    }
  }

  /** A property of key sets that every step's keys have and that unions keep holds of the loop's result. */
  lemma {:induction false} FillKeeps<K>(P: set<K> -> bool, sel: set<K>, keysAt: int -> set<K>, time: int, maxTime: int, step: nat)
    requires step > 0
    requires P(sel)
    requires forall a: set<K>, b: set<K> :: P(a) && P(b) ==> P(a + b)
    requires forall t :: time <= t ==> P(keysAt(t))
    ensures P(Fill(sel, keysAt, time, maxTime, step))
    decreases maxTime + 1 - time
  {
    if time <= maxTime {
      var keys := keysAt(time);
      assert P(keys);
      UnionClosed(P, sel, keys);
      FillKeeps(P, sel + keys, keysAt, time + step, maxTime, step);
    }
  }

  lemma UnionClosed<K>(P: set<K> -> bool, a: set<K>, b: set<K>)
    requires P(a) && P(b)
    requires forall x: set<K>, y: set<K> :: P(x) && P(y) ==> P(x + y)
    ensures P(a + b)
  {
  }
}
