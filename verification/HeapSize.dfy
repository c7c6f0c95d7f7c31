/** The heap-size traits: the type constructors that measure their values, the constant-size shortcut, and what a
    measurement adds up to. Allocator answers (`shallow_size_of`) are part of the values. */
module HeapSize {
  import opened Options

  /** The implementors of `MallocSizeOf`. */
  datatype Ty =
    | Fixed(size: nat)                           // declares `constant_size`: scalars, references, hand-written ones
    | Foreign                                    // measures itself and keeps the default `constant_size`
    | Boxed(inner: Ty)
    | Tuple(fields: seq<Ty>)
    | Optional(inner: Ty)
    | Fallible(inner: Ty, err: Ty)               // `Result`
    | Transparent(inner: Ty)                     // `Cell`, `RefCell`, `Reverse`
    | Guarded(inner: Ty)                         // `Mutex`, `RwLock`
    | Deferred(inner: Ty)                        // `Cow` (absent when borrowed), `OnceCell` (absent when unset)
    | Elements(inner: Ty)                        // slices, `Vec`, `VecDeque`, `HashSet`, `BTreeSet`
    | Entries(key: Ty, value: Ty, index: bool)   // `HashMap`, `BTreeMap`, `LruCache`; `index` for `IndexMap`

  /** A value, as far as its heap is concerned; `shallow` is what the allocator reports for the container itself. */
  datatype Val =
    | Leaf(size: nat)
    | Absent
    | Present(inner: Val)
    | Failed(inner: Val)
    | Owned(shallow: nat, inner: Val)
    | Group(shallow: nat, parts: seq<Val>)
    | Pairs(shallow: nat, keys: seq<Val>, values: seq<Val>)

  predicate HasType(v: Val, t: Ty)
    decreases t
  {
    match t
    case Fixed(c) => v == Leaf(c)
    case Foreign => v.Leaf?
    case Boxed(u) => v.Owned? && HasType(v.inner, u)
    case Tuple(ts) =>
      v.Group? && v.shallow == 0 && |v.parts| == |ts| && forall i | 0 <= i < |ts| :: HasType(v.parts[i], ts[i])
    case Optional(u) => v.Absent? || (v.Present? && HasType(v.inner, u))
    case Fallible(u, e) => (v.Present? && HasType(v.inner, u)) || (v.Failed? && HasType(v.inner, e))
    case Transparent(u) => v.Present? && HasType(v.inner, u)
    case Guarded(u) => v.Present? && HasType(v.inner, u)
    case Deferred(u) => v.Absent? || (v.Present? && HasType(v.inner, u))
    case Elements(u) => v.Group? && forall i | 0 <= i < |v.parts| :: HasType(v.parts[i], u)
    case Entries(k, w, _) =>
      && v.Pairs? && |v.keys| == |v.values|
      && (forall i | 0 <= i < |v.keys| :: HasType(v.keys[i], k))
      && (forall i | 0 <= i < |v.values| :: HasType(v.values[i], w))
  }

  // ----- `constant_size`

  function ConstantSize(t: Ty): Option<nat>
    decreases t
  {
    match t
    case Fixed(c) => Some(c)
    case Tuple(ts) => ConstantTuple(ts)
    case Optional(u) => var c := ConstantSize(u); if c == Some(0) then c else None
    case Fallible(u, e) => var c := ConstantSize(u); if c.Some? && ConstantSize(e) == c then c else None
    case Transparent(u) => ConstantSize(u)
    case _ => None
  }

  /** The running `result` after the fields `ts`. */
  function ConstantTuple(ts: seq<Ty>): Option<nat>
    decreases ts
  {
    if ts == [] then Some(0) else
      var s, c := ConstantTuple(ts[..|ts| - 1]), ConstantSize(ts[|ts| - 1]);
      if s.Some? && c.Some? then Some(s.value + c.value) else None
  }

  // ----- what a measurement should be: the whole value walked, no types and no shortcut

  function FullSize(v: Val): nat
    decreases v
  {
    match v
    case Leaf(n) => n
    case Absent => 0
    case Present(x) => FullSize(x)
    case Failed(x) => FullSize(x)
    case Owned(n, x) => n + FullSize(x)
    case Group(n, xs) => n + FullParts(xs)
    case Pairs(n, ks, ws) => n + FullParts(ks) + FullParts(ws)
  }

  function FullParts(xs: seq<Val>): nat
    decreases xs
  {
    if xs == [] then 0 else FullParts(xs[..|xs| - 1]) + FullSize(xs[|xs| - 1])
  }

  /** Every allocation in a value, the container before its contents. */
  function Allocations(v: Val): seq<nat>
    decreases v
  {
    match v
    case Leaf(n) => [n]
    case Absent => []
    case Present(x) => Allocations(x)
    case Failed(x) => Allocations(x)
    case Owned(n, x) => [n] + Allocations(x)
    case Group(n, xs) => [n] + AllAllocations(xs)
    case Pairs(n, ks, ws) => [n] + AllAllocations(ks) + AllAllocations(ws)
  }

  function AllAllocations(xs: seq<Val>): seq<nat>
    decreases xs
  {
    if xs == [] then [] else AllAllocations(xs[..|xs| - 1]) + Allocations(xs[|xs| - 1])
  }

  function Total(ns: seq<nat>): nat {
    if ns == [] then 0 else Total(ns[..|ns| - 1]) + ns[|ns| - 1]
  }

  lemma {:induction false} TotalConcat(a: seq<nat>, b: seq<nat>)
    ensures Total(a + b) == Total(a) + Total(b)
  {
    if b == [] {
      assert a + b == a;
    } else {
      TotalConcat(a, b[..|b| - 1]);
      assert (a + b)[..|a + b| - 1] == a + b[..|b| - 1];
    }
  }

  /** The full size counts every allocation once. */
  lemma {:induction false} FullSizeExactly(v: Val)
    ensures FullSize(v) == Total(Allocations(v))
    decreases v
  {
    match v
    case Leaf(n) => assert [n][..0] == [];
    case Absent =>
    case Present(x) => FullSizeExactly(x);
    case Failed(x) => FullSizeExactly(x);
    case Owned(n, x) =>
      FullSizeExactly(x);
      TotalConcat([n], Allocations(x));
    case Group(n, xs) =>
      FullPartsExactly(xs);
      TotalConcat([n], AllAllocations(xs));
    case Pairs(n, ks, ws) =>
      FullPartsExactly(ks);
      FullPartsExactly(ws);
      TotalConcat([n], AllAllocations(ks));
      TotalConcat([n] + AllAllocations(ks), AllAllocations(ws));
  }

  lemma {:induction false} FullPartsExactly(xs: seq<Val>)
    ensures FullParts(xs) == Total(AllAllocations(xs))
    decreases xs
  {
    if xs != [] {
      FullPartsExactly(xs[..|xs| - 1]);
      FullSizeExactly(xs[|xs| - 1]);
      TotalConcat(AllAllocations(xs[..|xs| - 1]), Allocations(xs[|xs| - 1]));
    }
  }

  // ----- what a measurement counts twice: the container part of an `IndexMap` without the shortcut

  predicate Shortcut(k: Ty, w: Ty) {
    ConstantSize(k).Some? && ConstantSize(w).Some?
  }

  function Extra(v: Val, t: Ty): nat
    requires HasType(v, t)
    decreases v, t
  {
    match t
    case Fixed(_) => 0
    case Foreign => 0
    case Boxed(u) => Extra(v.inner, u)
    case Tuple(ts) => ExtraTuple(v.parts, ts)
    case Fallible(u, e) => if v.Present? then Extra(v.inner, u) else Extra(v.inner, e)
    case Elements(u) => ExtraParts(v.parts, u)
    case Entries(k, w, index) =>
      (if index && !Shortcut(k, w) then v.shallow else 0) + ExtraParts(v.keys, k) + ExtraParts(v.values, w)
    case Optional(u) => if v.Absent? then 0 else Extra(v.inner, u)
    case Deferred(u) => if v.Absent? then 0 else Extra(v.inner, u)
    case Transparent(u) => Extra(v.inner, u)
    case Guarded(u) => Extra(v.inner, u)
  }

  function ExtraTuple(xs: seq<Val>, ts: seq<Ty>): nat
    requires |xs| == |ts| && forall i | 0 <= i < |ts| :: HasType(xs[i], ts[i])
    decreases xs
  {
    if xs == [] then 0 else
      var n := |xs| - 1;
      ExtraTuple(xs[..n], ts[..n]) + Extra(xs[n], ts[n])
  }

  function ExtraParts(xs: seq<Val>, t: Ty): nat
    requires forall i | 0 <= i < |xs| :: HasType(xs[i], t)
    decreases xs
  {
    if xs == [] then 0 else ExtraParts(xs[..|xs| - 1], t) + Extra(xs[|xs| - 1], t)
  }

  // ----- the shortcut is sound

  /** A type that announces a constant has only values of that size, at every nesting depth. */
  lemma {:induction false} ConstantSizeSound(v: Val, t: Ty)
    requires HasType(v, t) && ConstantSize(t).Some?
    ensures FullSize(v) == ConstantSize(t).value && Extra(v, t) == 0
    decreases t
  {
    match t
    case Fixed(_) =>
    case Tuple(ts) => ConstantTupleSound(v.parts, ts);
    case Optional(u) => if v.Present? { ConstantSizeSound(v.inner, u); }
    case Fallible(u, e) => if v.Present? { ConstantSizeSound(v.inner, u); } else { ConstantSizeSound(v.inner, e); }
    case Transparent(u) => ConstantSizeSound(v.inner, u);
  }

  lemma {:induction false} ConstantTupleSound(xs: seq<Val>, ts: seq<Ty>)
    requires |xs| == |ts| && forall i | 0 <= i < |ts| :: HasType(xs[i], ts[i])
    requires ConstantTuple(ts).Some?
    ensures FullParts(xs) == ConstantTuple(ts).value && ExtraTuple(xs, ts) == 0
    decreases ts
  {
    if ts != [] {
      var n := |ts| - 1;
      ConstantTupleSound(xs[..n], ts[..n]);
      ConstantSizeSound(xs[n], ts[n]);
    }
  }

  // ----- and taken wherever it can be

  /** A tuple has a constant size exactly when all its fields have. */
  lemma {:induction false} ConstantTupleExactly(ts: seq<Ty>)
    ensures ConstantTuple(ts).Some? <==> forall i | 0 <= i < |ts| :: ConstantSize(ts[i]).Some?
  {
    if ts != [] { ConstantTupleExactly(ts[..|ts| - 1]); }
  }

  /** Locks and lazily present values announce no constant, whatever they hold. */
  predicate Reticent(t: Ty) {
    t.Guarded? || t.Deferred?
  }

  predicate NoneReticent(t: Ty)
    decreases t
  {
    match t
    case Fixed(_) => true
    case Foreign => true
    case Tuple(ts) => forall i | 0 <= i < |ts| :: NoneReticent(ts[i])
    case Fallible(u, e) => NoneReticent(u) && NoneReticent(e)
    case Entries(k, w, _) => NoneReticent(k) && NoneReticent(w)
    case Guarded(_) => false
    case Deferred(_) => false
    case _ => NoneReticent(t.inner)
  }

  lemma {:induction false} SomeValue(t: Ty) returns (v: Val)
    ensures HasType(v, t)
    decreases t
  {
    match t
    case Fixed(c) => v := Leaf(c);
    case Foreign => v := Leaf(0);
    case Boxed(u) => v := SomeValue(u); v := Owned(0, v);
    case Tuple(ts) => var xs := SomeTuple(ts); v := Group(0, xs);
    case Fallible(u, _) => v := SomeValue(u); v := Present(v);
    case Elements(_) => v := Group(0, []);
    case Entries(_, _, _) => v := Pairs(0, [], []);
    case _ => v := SomeValue(t.inner); v := Present(v);
  }

  lemma {:induction false} SomeTuple(ts: seq<Ty>) returns (xs: seq<Val>)
    ensures |xs| == |ts| && forall i | 0 <= i < |ts| :: HasType(xs[i], ts[i])
    decreases ts
  {
    xs := [];
    if ts != [] {
      var n := |ts| - 1;
      xs := SomeTuple(ts[..n]);
      var x := SomeValue(ts[n]);
      xs := xs + [x];
    }
  }

  lemma {:induction false} FullPartsUpdate(xs: seq<Val>, i: nat, x: Val)
    requires i < |xs|
    ensures FullParts(xs[i := x]) == FullParts(xs) - FullSize(xs[i]) + FullSize(x)
  {
    var n := |xs| - 1;
    if i < n {
      FullPartsUpdate(xs[..n], i, x);
      assert xs[i := x][..n] == xs[..n][i := x];
    } else {
      assert xs[i := x][..n] == xs[..n];
    }
  }

  lemma TupleVaries(xs: seq<Val>, ts: seq<Ty>, i: nat, x: Val, y: Val)
    requires |xs| == |ts| && forall j | 0 <= j < |ts| :: HasType(xs[j], ts[j])
    requires i < |ts| && HasType(x, ts[i]) && HasType(y, ts[i]) && FullSize(x) != FullSize(y)
    ensures var (v, w) := (Group(0, xs[i := x]), Group(0, xs[i := y]));
            HasType(v, Tuple(ts)) && HasType(w, Tuple(ts)) && FullSize(v) != FullSize(w)
  {
    FullPartsUpdate(xs, i, x);
    FullPartsUpdate(xs, i, y);
    GroupOf(xs[i := x], ts);
    GroupOf(xs[i := y], ts);
    hide FullParts, FullSize, HasType;
  }

  lemma GroupOf(xs: seq<Val>, ts: seq<Ty>)
    requires |xs| == |ts| && forall j | 0 <= j < |ts| :: HasType(xs[j], ts[j])
    ensures HasType(Group(0, xs), Tuple(ts)) && FullSize(Group(0, xs)) == FullParts(xs)
  {
    hide FullParts;
  }

  lemma OptionVaries(u: Ty) returns (v: Val, w: Val)
    requires ConstantSize(u).Some? && ConstantSize(Optional(u)).None?
    ensures HasType(v, Optional(u)) && HasType(w, Optional(u)) && FullSize(v) != FullSize(w)
  {
    v := SomeValue(u);
    ConstantSizeSound(v, u);
    v, w := Present(v), Absent;
  }

  lemma ResultVaries(u: Ty, e: Ty) returns (v: Val, w: Val)
    requires ConstantSize(u).Some? && ConstantSize(e).Some? && ConstantSize(Fallible(u, e)).None?
    ensures HasType(v, Fallible(u, e)) && HasType(w, Fallible(u, e)) && FullSize(v) != FullSize(w)
  {
    v := SomeValue(u);
    w := SomeValue(e);
    ConstantSizeSound(v, u);
    ConstantSizeSound(w, e);
    v, w := Present(v), Failed(w);
  }

  lemma Wrapped(v: Val, w: Val)
    requires FullSize(v) != FullSize(w)
    ensures FullSize(Present(v)) != FullSize(Present(w)) && FullSize(Failed(v)) != FullSize(Failed(w))
  {
  }

  /** Among the other types one without a constant has values of different sizes. */
  lemma {:induction false} ConstantSizeComplete(t: Ty) returns (v: Val, w: Val)
    requires NoneReticent(t) && ConstantSize(t).None?
    ensures HasType(v, t) && HasType(w, t) && FullSize(v) != FullSize(w)
    decreases t, 1
  {
    match t
    case Foreign => v, w := Leaf(0), Leaf(1);
    case Boxed(u) => v := SomeValue(u); v, w := Owned(0, v), Owned(1, v);
    case Tuple(ts) =>
      ConstantTupleExactly(ts);
      var i :| 0 <= i < |ts| && ConstantSize(ts[i]).None?;
      var xs := SomeTuple(ts);
      var x, y := ConstantSizeComplete(ts[i]);
      TupleVaries(xs, ts, i, x, y);
      v, w := Group(0, xs[i := x]), Group(0, xs[i := y]);
    case Optional(u) =>
      if ConstantSize(u).Some? {
        v, w := OptionVaries(u);
      } else {
        v, w := ConstantSizeComplete(u);
        Wrapped(v, w);
        v, w := Present(v), Present(w);
      }
    case Fallible(u, e) => v, w := FallibleComplete(u, e);
    case Transparent(u) =>
      v, w := ConstantSizeComplete(u);
      Wrapped(v, w);
      v, w := Present(v), Present(w);
    case Elements(_) => v, w := Group(0, []), Group(1, []);
    case Entries(_, _, _) => v, w := Pairs(0, [], []), Pairs(1, [], []);
  }

  lemma {:induction false} FallibleComplete(u: Ty, e: Ty) returns (v: Val, w: Val)
    requires NoneReticent(u) && NoneReticent(e) && ConstantSize(Fallible(u, e)).None?
    ensures HasType(v, Fallible(u, e)) && HasType(w, Fallible(u, e)) && FullSize(v) != FullSize(w)
    decreases Fallible(u, e), 0
  {
    if ConstantSize(u).None? {
      v, w := ConstantSizeComplete(u);
      Wrapped(v, w);
      v, w := Present(v), Present(w);
    } else if ConstantSize(e).None? {
      v, w := ConstantSizeComplete(e);
      Wrapped(v, w);
      v, w := Failed(v), Failed(w);
    } else {
      v, w := ResultVaries(u, e);
    }
  }

  /** A type announces a constant exactly when all its values have one size, locks and lazily present values inside it
      apart, which never do. */
  lemma ConstantSizeExactly(t: Ty)
    ensures Reticent(t) ==> ConstantSize(t).None?
    ensures NoneReticent(t) ==>
              (ConstantSize(t).Some? <==> forall v, w | HasType(v, t) && HasType(w, t) :: FullSize(v) == FullSize(w))
  {
    if ConstantSize(t).Some? {
      forall v, w | HasType(v, t) && HasType(w, t) ensures FullSize(v) == FullSize(w) {
        ConstantSizeSound(v, t);
        ConstantSizeSound(w, t);
      }
    } else if NoneReticent(t) {
      var v, w := ConstantSizeComplete(t);
    }
  }

  /** The multiply-by-length branch is the element-by-element traversal. */
  lemma {:induction false} ElementsShortcut(xs: seq<Val>, t: Ty)
    requires forall i | 0 <= i < |xs| :: HasType(xs[i], t)
    requires ConstantSize(t).Some?
    ensures FullParts(xs) == |xs| * ConstantSize(t).value && ExtraParts(xs, t) == 0
  {
    if xs != [] {
      var n := |xs| - 1;
      ElementsShortcut(xs[..n], t);
      ConstantSizeSound(xs[n], t);
      hide HasType, FullSize, Extra, ConstantSize;
      OneMore(n, ConstantSize(t).value);
    }
  }

  lemma OneMore(n: nat, c: nat)
    ensures (n + 1) * c == n * c + c
  {
  }

  // ----- `size_of`

  /** `size_of` of every implementor: the full size, plus exactly what index maps count twice. */
  method SizeOf(v: Val, t: Ty) returns (n: nat)
    requires HasType(v, t)
    ensures n == FullSize(v) + Extra(v, t)
    ensures n == FullSize(v) <==> CountedOnce(v, t)
    decreases t, 1
  {
    ExactlyWhenCountedOnce(v, t);
    match t
    case Fixed(c) => n := c;
    case Foreign => n := v.size;
    case Boxed(u) => n := SizeOf(v.inner, u); n := v.shallow + n;
    case Tuple(ts) => n := SizeOfTuple(v.parts, ts);
    case Fallible(u, e) => if v.Present? { n := SizeOf(v.inner, u); } else { n := SizeOf(v.inner, e); }
    case Elements(u) => n := SizeOfElements(v, u);
    case Entries(k, w, index) => n := SizeOfEntries(v, t);
    case Optional(u) => if v.Absent? { n := 0; } else { n := SizeOf(v.inner, u); }
    case Deferred(u) => if v.Absent? { n := 0; } else { n := SizeOf(v.inner, u); }
    case Transparent(u) => n := SizeOf(v.inner, u);
    case Guarded(u) => n := SizeOf(v.inner, u);
  }

  method SizeOfTuple(xs: seq<Val>, ts: seq<Ty>) returns (result: nat)
    requires |xs| == |ts| && forall i | 0 <= i < |ts| :: HasType(xs[i], ts[i])
    ensures result == FullParts(xs) + ExtraTuple(xs, ts)
    decreases ts, 0
  {
    result := 0;
    for i := 0 to |xs|
      invariant result == FullParts(xs[..i]) + ExtraTuple(xs[..i], ts[..i])
    {
      var n := SizeOf(xs[i], ts[i]);
      result := result + n;
      assert xs[..i + 1][..i] == xs[..i] && ts[..i + 1][..i] == ts[..i];
    }
    assert xs[..|xs|] == xs && ts[..|xs|] == ts;
  }

  method SizeOfElements(v: Val, t: Ty) returns (n: nat)
    requires v.Group? && forall i | 0 <= i < |v.parts| :: HasType(v.parts[i], t)
    ensures n == v.shallow + FullParts(v.parts) + ExtraParts(v.parts, t)
    decreases t, 2
  {
    n := v.shallow;
    var xs := v.parts;
    var c := ConstantSize(t);
    if c.Some? {
      n := n + |xs| * c.value;
      ElementsShortcut(xs, t);
    } else {
      for i := 0 to |xs|
        invariant n == v.shallow + FullParts(xs[..i]) + ExtraParts(xs[..i], t)
      {
        var m := SizeOf(xs[i], t);
        n := n + m;
        assert xs[..i + 1][..i] == xs[..i];
      }
      assert xs[..|xs|] == xs;
    }
  }

  /** For an `IndexMap` the fold starts from `n` and is then added to `n`. */
  method SizeOfEntries(v: Val, t: Ty) returns (n: nat)
    requires t.Entries? && HasType(v, t)
    ensures n == FullSize(v) + Extra(v, t)
    decreases t, 0
  {
    n := v.shallow;
    var ks, ws, k, w := v.keys, v.values, ConstantSize(t.key), ConstantSize(t.value);
    if k.Some? && w.Some? {
      n := n + |ks| * (k.value + w.value);
      ElementsShortcut(ks, t.key);
      ElementsShortcut(ws, t.value);
      assert |ks| * (k.value + w.value) == |ks| * k.value + |ws| * w.value;
    } else {
      var acc := n;
      for i := 0 to |ks|
        invariant acc == n + FullParts(ks[..i]) + ExtraParts(ks[..i], t.key)
            + FullParts(ws[..i]) + ExtraParts(ws[..i], t.value)
      {
        var a := SizeOf(ks[i], t.key);
        var b := SizeOf(ws[i], t.value);
        acc := acc + a + b;
        assert ks[..i + 1][..i] == ks[..i] && ws[..i + 1][..i] == ws[..i];
      }
      assert ks[..|ks|] == ks && ws[..|ks|] == ws;
      n := if t.index then n + acc else acc;
    }
  }

  // ----- when the measurement is the full size

  /** Every index map that is walked takes the shortcut or owns nothing itself. */
  predicate CountedOnce(v: Val, t: Ty)
    requires HasType(v, t)
    decreases t
  {
    match t
    case Fixed(_) => true
    case Foreign => true
    case Boxed(u) => CountedOnce(v.inner, u)
    case Tuple(ts) => forall i | 0 <= i < |ts| :: CountedOnce(v.parts[i], ts[i])
    case Optional(u) => v.Present? ==> CountedOnce(v.inner, u)
    case Fallible(u, e) => if v.Present? then CountedOnce(v.inner, u) else CountedOnce(v.inner, e)
    case Transparent(u) => CountedOnce(v.inner, u)
    case Guarded(u) => CountedOnce(v.inner, u)
    case Deferred(u) => v.Present? ==> CountedOnce(v.inner, u)
    case Elements(u) => forall i | 0 <= i < |v.parts| :: CountedOnce(v.parts[i], u)
    case Entries(k, w, index) =>
      && (index ==> Shortcut(k, w) || v.shallow == 0)
      && (forall i | 0 <= i < |v.keys| :: CountedOnce(v.keys[i], k))
      && (forall i | 0 <= i < |v.values| :: CountedOnce(v.values[i], w))
  }

  /** `size_of` is the full size exactly when no index map is counted twice. */
  lemma {:induction false} ExactlyWhenCountedOnce(v: Val, t: Ty)
    requires HasType(v, t)
    ensures Extra(v, t) == 0 <==> CountedOnce(v, t)
    decreases t, 0
  {
    match t
    case Fixed(_) =>
    case Foreign =>
    case Boxed(u) => ExactlyWhenCountedOnce(v.inner, u);
    case Tuple(ts) => TupleCountedOnce(v.parts, ts);
    case Optional(u) => if v.Present? { ExactlyWhenCountedOnce(v.inner, u); }
    case Fallible(u, e) =>
      if v.Present? { ExactlyWhenCountedOnce(v.inner, u); } else { ExactlyWhenCountedOnce(v.inner, e); }
    case Transparent(u) => ExactlyWhenCountedOnce(v.inner, u);
    case Guarded(u) => ExactlyWhenCountedOnce(v.inner, u);
    case Deferred(u) => if v.Present? { ExactlyWhenCountedOnce(v.inner, u); }
    case Elements(u) => PartsCountedOnce(v.parts, u);
    case Entries(k, w, _) => PartsCountedOnce(v.keys, k); PartsCountedOnce(v.values, w);
  }

  lemma {:induction false} TupleCountedOnce(xs: seq<Val>, ts: seq<Ty>)
    requires |xs| == |ts| && forall i | 0 <= i < |ts| :: HasType(xs[i], ts[i])
    ensures ExtraTuple(xs, ts) == 0 <==> forall i | 0 <= i < |ts| :: CountedOnce(xs[i], ts[i])
    decreases ts
  {
    if ts != [] {
      var n := |ts| - 1;
      TupleCountedOnce(xs[..n], ts[..n]);
      ExactlyWhenCountedOnce(xs[n], ts[n]);
      assert forall i | 0 <= i < n :: xs[..n][i] == xs[i] && ts[..n][i] == ts[i];
    }
  }

  lemma {:induction false} PartsCountedOnce(xs: seq<Val>, t: Ty)
    requires forall i | 0 <= i < |xs| :: HasType(xs[i], t)
    ensures ExtraParts(xs, t) == 0 <==> forall i | 0 <= i < |xs| :: CountedOnce(xs[i], t)
    decreases t, 1, |xs|
  {
    if xs != [] {
      var n := |xs| - 1;
      PartsCountedOnce(xs[..n], t);
      ExactlyWhenCountedOnce(xs[n], t);
      assert forall i | 0 <= i < n :: xs[..n][i] == xs[i];
    }
  }

  predicate NoIndexMap(t: Ty)
    decreases t
  {
    match t
    case Fixed(_) => true
    case Foreign => true
    case Tuple(ts) => forall i | 0 <= i < |ts| :: NoIndexMap(ts[i])
    case Fallible(u, e) => NoIndexMap(u) && NoIndexMap(e)
    case Entries(k, w, index) => !index && NoIndexMap(k) && NoIndexMap(w)
    case _ => NoIndexMap(t.inner)
  }

  lemma {:induction false} StandardTypesCountedOnce(v: Val, t: Ty)
    requires HasType(v, t) && NoIndexMap(t)
    ensures CountedOnce(v, t)
    decreases t
  {
    match t
    case Fixed(_) =>
    case Foreign =>
    case Tuple(ts) =>
      forall i | 0 <= i < |ts| ensures CountedOnce(v.parts[i], ts[i]) { StandardTypesCountedOnce(v.parts[i], ts[i]); }
    case Fallible(u, e) =>
      if v.Present? { StandardTypesCountedOnce(v.inner, u); } else { StandardTypesCountedOnce(v.inner, e); }
    case Elements(u) =>
      forall i | 0 <= i < |v.parts| ensures CountedOnce(v.parts[i], u) { StandardTypesCountedOnce(v.parts[i], u); }
    case Entries(k, w, _) =>
      forall i | 0 <= i < |v.keys| ensures CountedOnce(v.keys[i], k) { StandardTypesCountedOnce(v.keys[i], k); }
      forall i | 0 <= i < |v.values| ensures CountedOnce(v.values[i], w) { StandardTypesCountedOnce(v.values[i], w); }
    case _ => if !v.Absent? { StandardTypesCountedOnce(v.inner, t.inner); }
  }

  /** Without index maps the shortcut changes nothing, at any nesting depth. */
  lemma StandardTypesExact(v: Val, t: Ty)
    requires HasType(v, t) && NoIndexMap(t)
    ensures Extra(v, t) == 0
  {
    StandardTypesCountedOnce(v, t);
    ExactlyWhenCountedOnce(v, t);
  }

  /** An index map with one entry whose key owns five bytes: the table itself is reported twice. */
  lemma IndexMapCountsTwice(table: nat)
    ensures
      var v := Pairs(table, [Leaf(5)], [Leaf(0)]);
      var t := Entries(Foreign, Fixed(0), true);
      HasType(v, t) && FullSize(v) == table + 5 && Extra(v, t) == table
  {
    var ks, ws := [Leaf(5)], [Leaf(0)];
    assert ks[..0] == [] && ws[..0] == [];
    assert HasType(ks[0], Foreign) && HasType(ws[0], Fixed(0));
    assert FullParts(ks) == 5 && FullParts(ws) == 0;
    assert ExtraParts(ks, Foreign) == 0 && ExtraParts(ws, Fixed(0)) == 0;
  }
}
