/** Segment-aligned path prefixes and the correlated-variable resolver
    (`hasPathPrefix`, `_substituteVariable`, `substituteVariable`).

    The resolver walks an operation tree held in shared `MArray` handles.  Its
    ghost parameters describe the part of the heap it walks:
    - `g` maps every array the walk can reach to a snapshot of its elements;
      only element 0 of an array may differ from its snapshot, which is all
      the walk ever changes;
    - `rank` gives every such array a number larger than that of each array it
      holds at an index of 1 or more, so the walk terminates (the tree has no
      cycles; an array may still be shared by several parents). */
module PathResolver {
  import opened CStrings
  import opened TaggedValue

  // ---------------------------------------------------------------------
  // Path prefixes

  /** `hasPathPrefix(path, prefix)`: `prefix` starts `path` and ends at a
      segment boundary, so `path` is `prefix` followed by nothing or by a new
      `.` or `[` segment. */
  predicate HasPathPrefix(path: string, prefix: string): (b: bool)
    ensures b <==> exists rest :: path == prefix + rest && (rest == [] || rest[0] == '.' || rest[0] == '[')
  {
    assert prefix <= path ==> path == prefix + path[|prefix|..];
    prefix <= path && (|path| == |prefix| || path[|prefix|] == '.' || path[|prefix|] == '[')
  }

  /** A path that textually starts with `prefix` has it as a path prefix
      exactly when the rest is empty or opens a new `.` or `[` segment. */
  lemma PathPrefixSplit(prefix: string, rest: string)
    ensures HasPathPrefix(prefix + rest, prefix) <==> (rest == [] || rest[0] == '.' || rest[0] == '[')
  {
    assert (prefix + rest)[..|prefix|] == prefix;
    if rest != [] {
      assert (prefix + rest)[|prefix|] == rest[0];
    }
  }

  /** Without a textual prefix there is no path prefix. */
  lemma PathPrefixNeedsTextualPrefix(path: string, prefix: string)
    requires !(prefix <= path)
    ensures !HasPathPrefix(path, prefix)
  {
  }

  /** Every path is a path prefix of itself. */
  lemma PathPrefixReflexive(path: string)
    ensures HasPathPrefix(path, path)
  {
  }

  /** Segment-aligned prefixes compose. */
  lemma PathPrefixTransitive(a: string, b: string, c: string)
    requires HasPathPrefix(a, b) && HasPathPrefix(b, c)
    ensures HasPathPrefix(a, c)
  {
    assert a[..|c|] == a[..|b|][..|c|];
    if |b| > |c| {
      assert a[|c|] == b[|c|];
    }
  }

  /** `.x` does not match `.xs`, and matches `.x.a`, `.x[0]` and `.x`. */
  lemma PathPrefixExamples()
    ensures !HasPathPrefix(".xs", ".x")
    ensures HasPathPrefix(".x.a", ".x")
    ensures HasPathPrefix(".x[0]", ".x")
    ensures HasPathPrefix(".x", ".x")
    ensures !HasPathPrefix(".addr", ".address")
    ensures HasPathPrefix(".address.city", ".address")
  {
    PathPrefixSplit(".x", "s");
    PathPrefixSplit(".x", ".a");
    PathPrefixSplit(".x", "[0]");
    PathPrefixSplit(".address", ".city");
  }

  // ---------------------------------------------------------------------
  // Rewriting one array's operator position

  /** fleece's `asString()`: the text of a string value, mutable or
      immutable, and the empty slice for anything else. */
  function AsString(s: Slot): (r: string)
    ensures s.StringSlot? ==> r == s.s
    ensures s.FrozenSlot? && s.v.FrozenString? ==> r == s.v.text
    ensures !s.StringSlot? && !(s.FrozenSlot? && s.v.FrozenString?) ==> r == []
  {
    match s
    case StringSlot(t) => t
    case FrozenSlot(FrozenString(t)) => t
    case _ => ""
  }

  /** What visiting one array does to its elements: an element-0 string with
      path prefix `prefix` gets `?` for its first character (and is stored
      back through `.c_str()`); nothing else changes. */
  function Retag(prefix: string, elems: seq<Slot>): (r: seq<Slot>)
    requires prefix != []
    ensures |r| == |elems|
    ensures forall j :: 1 <= j < |elems| ==> r[j] == elems[j]
    ensures r != elems ==> HasPathPrefix(AsString(elems[0]), prefix)
  {
    if |elems| > 0 && HasPathPrefix(AsString(elems[0]), prefix) then
      elems[0 := StringSlot(CStr(['?'] + AsString(elems[0])[1..]))]
    else
      elems
  }

  /** A rewritten operator keeps its length and every character but the
      first; the first character (`.` when the prefix is `.` + name) becomes
      `?`.  This holds for text without NUL, which `.c_str()` would cut
      short. */
  lemma RetagRewritesFirstChar(prefix: string, elems: seq<Slot>)
    requires prefix != [] && |elems| > 0
    requires HasPathPrefix(AsString(elems[0]), prefix)
    requires '\0' !in AsString(elems[0])
    ensures var t := AsString(elems[0]);
      Retag(prefix, elems)[0] == StringSlot(['?'] + t[1..])
      && |['?'] + t[1..]| == |t| && t[0] == prefix[0]
  {
    var t := AsString(elems[0]);
    assert '\0' !in ['?'] + t[1..] by {
      assert forall k :: 1 <= k < |t| ==> (['?'] + t[1..])[k] == t[k];
    }
    CStrOfCString(['?'] + t[1..]);
  }

  /** Visiting an array a second time changes nothing. */
  lemma RetagIdempotent(prefix: string, elems: seq<Slot>)
    requires prefix != []
    ensures Retag(prefix, Retag(prefix, elems)) == Retag(prefix, elems)
  {
    var r := Retag(prefix, elems);
    if r != elems {
      var t := CStr(['?'] + AsString(elems[0])[1..]);
      assert r[0] == StringSlot(t) && AsString(r[0]) == t;
      if HasPathPrefix(t, prefix) {
        assert t[0] == '?';
        assert ['?'] + t[1..] == t;
        CStrOfCString(t);
      }
    }
  }

  // ---------------------------------------------------------------------
  // The shape of the walked heap

  /** The snapshot `h` agrees with the shape `g` everywhere but element 0. */
  ghost predicate Shaped(g: map<MArray, seq<Slot>>, h: map<MArray, seq<Slot>>)
  {
    forall a :: a in g ==>
      && a in h
      && |h[a]| == |g[a]|
      && forall j :: 1 <= j < |g[a]| ==> h[a][j] == g[a][j]
  }

  /** The elements of every described array, read from the heap. */
  ghost function Snapshot(g: map<MArray, seq<Slot>>): (h: map<MArray, seq<Slot>>)
    reads g.Keys
    ensures h.Keys == g.Keys
    ensures forall a :: a in g ==> h[a] == a.elems
  {
    map a | a in g :: a.elems
  }

  /** The heap agrees with the shape `g` everywhere but element 0. */
  ghost predicate Conforms(g: map<MArray, seq<Slot>>)
    reads g.Keys
  {
    Shaped(g, Snapshot(g))
  }

  /** Every array held at an index of 1 or more is itself described, with a
      smaller rank. */
  ghost predicate Ranked(g: map<MArray, seq<Slot>>, rank: map<MArray, nat>)
  {
    forall a :: a in g ==>
      && a in rank
      && forall j :: 1 <= j < |g[a]| && g[a][j].ArraySlot? ==>
           g[a][j].arr in g && g[a][j].arr in rank && rank[g[a][j].arr] < rank[a]
  }

  /** `b` is visited by a walk started at `a`: it is `a`, or is visited from
      an array that `a` holds at an index of 1 or more.  Dicts, immutable
      values and whatever sits at element 0 are not entered. */
  ghost predicate Reaches(g: map<MArray, seq<Slot>>, rank: map<MArray, nat>, a: MArray, b: MArray)
    requires Ranked(g, rank) && a in g
    decreases rank[a], 1, 0
  {
    a == b || ReachedBefore(g, rank, a, |g[a]|, b)
  }

  /** `b` is visited from one of the arrays that `a` holds at indices 1 to
      `upTo - 1`. */
  ghost predicate ReachedBefore(g: map<MArray, seq<Slot>>, rank: map<MArray, nat>, a: MArray, upTo: nat, b: MArray)
    requires Ranked(g, rank) && a in g && upTo <= |g[a]|
    decreases rank[a], 0, upTo
  {
    && upTo > 1
    && (|| ReachedBefore(g, rank, a, upTo - 1, b)
        || (g[a][upTo - 1].ArraySlot? && Reaches(g, rank, g[a][upTo - 1].arr, b)))
  }

  /** The walk from `a` stays among the described arrays and visits nothing
      of a higher rank. */
  lemma {:induction false} ReachesRank(g: map<MArray, seq<Slot>>, rank: map<MArray, nat>, a: MArray, b: MArray)
    requires Ranked(g, rank) && a in g
    requires Reaches(g, rank, a, b)
    ensures b in g && b in rank && rank[b] <= rank[a]
    decreases rank[a], 1, 0
  {
    if a != b {
      ReachedBeforeRank(g, rank, a, |g[a]|, b);
    }
  }

  /** What is visited through the children of `a` ranks below `a`. */
  lemma {:induction false} ReachedBeforeRank(g: map<MArray, seq<Slot>>, rank: map<MArray, nat>, a: MArray, upTo: nat, b: MArray)
    requires Ranked(g, rank) && a in g && upTo <= |g[a]|
    requires ReachedBefore(g, rank, a, upTo, b)
    ensures b in g && b in rank && rank[b] < rank[a]
    decreases rank[a], 0, upTo
  {
    if ReachedBefore(g, rank, a, upTo - 1, b) {
      ReachedBeforeRank(g, rank, a, upTo - 1, b);
    } else {
      ReachesRank(g, rank, g[a][upTo - 1].arr, b);
    }
  }

  // ---------------------------------------------------------------------
  // What a walk does, on snapshots

  /** `after` is `before` with every array that a walk from `expr` visits
      retagged, and every other array as it was. */
  ghost predicate Walked(prefix: string, g: map<MArray, seq<Slot>>, rank: map<MArray, nat>, expr: MArray,
                         before: map<MArray, seq<Slot>>, after: map<MArray, seq<Slot>>)
    requires prefix != [] && Ranked(g, rank) && expr in g
  {
    forall b :: b in g ==>
      && b in before && b in after
      && after[b] == if Reaches(g, rank, expr, b) then Retag(prefix, before[b]) else before[b]
  }

  /** Part-way through the walk of `expr`: element 0 has been handled once
      `index` is past it, and so has every array reached through the elements
      before `index`. */
  ghost predicate WalkedUpTo(prefix: string, g: map<MArray, seq<Slot>>, rank: map<MArray, nat>, expr: MArray,
                             index: nat, before: map<MArray, seq<Slot>>, now: map<MArray, seq<Slot>>)
    requires prefix != [] && Ranked(g, rank) && expr in g && index <= |g[expr]|
  {
    forall b :: b in g ==>
      && b in before && b in now
      && now[b] == if (index > 0 && b == expr) || ReachedBefore(g, rank, expr, index, b)
                   then Retag(prefix, before[b]) else before[b]
  }

  /** A walk in progress keeps the shape: it only ever retags. */
  lemma WalkedUpToShaped(prefix: string, g: map<MArray, seq<Slot>>, rank: map<MArray, nat>, expr: MArray,
                         index: nat, before: map<MArray, seq<Slot>>, now: map<MArray, seq<Slot>>)
    requires prefix != [] && Ranked(g, rank) && expr in g && index <= |g[expr]|
    requires Shaped(g, before) && WalkedUpTo(prefix, g, rank, expr, index, before, now)
    ensures Shaped(g, now)
  {
  }

  /** A finished walk keeps the shape. */
  lemma WalkedShaped(prefix: string, g: map<MArray, seq<Slot>>, rank: map<MArray, nat>, expr: MArray,
                     before: map<MArray, seq<Slot>>, after: map<MArray, seq<Slot>>)
    requires prefix != [] && Ranked(g, rank) && expr in g
    requires Shaped(g, before) && Walked(prefix, g, rank, expr, before, after)
    ensures Shaped(g, after)
  {
  }

  /** Before element 0 nothing is done. */
  lemma WalkStart(prefix: string, g: map<MArray, seq<Slot>>, rank: map<MArray, nat>, expr: MArray,
                  before: map<MArray, seq<Slot>>)
    requires prefix != [] && Ranked(g, rank) && expr in g && g.Keys <= before.Keys
    ensures WalkedUpTo(prefix, g, rank, expr, 0, before, before)
  {
  }

  /** Retagging element 0 of `expr` handles index 0. */
  lemma WalkHeadStep(prefix: string, g: map<MArray, seq<Slot>>, rank: map<MArray, nat>, expr: MArray,
                     before: map<MArray, seq<Slot>>, now: map<MArray, seq<Slot>>)
    requires prefix != [] && Ranked(g, rank) && expr in g && 0 < |g[expr]|
    requires g.Keys <= before.Keys && g.Keys <= now.Keys
    requires now[expr] == Retag(prefix, before[expr])
    requires forall b :: b in g && b != expr ==> now[b] == before[b]
    ensures WalkedUpTo(prefix, g, rank, expr, 1, before, now)
  {
  }

  /** Walking the child at `index` extends the part already walked by one
      element; arrays reached twice are unharmed since `Retag` is
      idempotent. */
  lemma WalkChildStep(prefix: string, g: map<MArray, seq<Slot>>, rank: map<MArray, nat>, expr: MArray,
                      index: nat, before: map<MArray, seq<Slot>>, mid: map<MArray, seq<Slot>>,
                      after: map<MArray, seq<Slot>>)
    requires prefix != [] && Ranked(g, rank) && expr in g
    requires 1 <= index < |g[expr]| && g[expr][index].ArraySlot?
    requires WalkedUpTo(prefix, g, rank, expr, index, before, mid)
    requires Walked(prefix, g, rank, g[expr][index].arr, mid, after)
    ensures WalkedUpTo(prefix, g, rank, expr, index + 1, before, after)
  {
    var child := g[expr][index].arr;
    forall b | b in g
      ensures after[b] == if b == expr || ReachedBefore(g, rank, expr, index + 1, b)
                          then Retag(prefix, before[b]) else before[b]
    {
      RetagIdempotent(prefix, before[b]);
      if Reaches(g, rank, child, b) {
        ReachesRank(g, rank, child, b);
      }
    }
  }

  /** An element at index 1 or more that is not a mutable array leads
      nowhere. */
  lemma WalkSkipStep(prefix: string, g: map<MArray, seq<Slot>>, rank: map<MArray, nat>, expr: MArray,
                     index: nat, before: map<MArray, seq<Slot>>, now: map<MArray, seq<Slot>>)
    requires prefix != [] && Ranked(g, rank) && expr in g
    requires 1 <= index < |g[expr]| && !g[expr][index].ArraySlot?
    requires WalkedUpTo(prefix, g, rank, expr, index, before, now)
    ensures WalkedUpTo(prefix, g, rank, expr, index + 1, before, now)
  {
  }

  /** Once every element is handled, the walk of `expr` is complete. */
  lemma WalkDone(prefix: string, g: map<MArray, seq<Slot>>, rank: map<MArray, nat>, expr: MArray,
                 before: map<MArray, seq<Slot>>, now: map<MArray, seq<Slot>>)
    requires prefix != [] && Ranked(g, rank) && expr in g
    requires Shaped(g, before)
    requires WalkedUpTo(prefix, g, rank, expr, |g[expr]|, before, now)
    ensures Walked(prefix, g, rank, expr, before, now)
  {
    forall b | b in g
      ensures now[b] == if Reaches(g, rank, expr, b) then Retag(prefix, before[b]) else before[b]
    {
      if b == expr && |g[expr]| == 0 {
        assert before[b] == [];
      }
    }
  }

  /** Walking the same prefix twice gives what walking it once gives. */
  lemma WalkedTwice(prefix: string, g: map<MArray, seq<Slot>>, rank: map<MArray, nat>, expr: MArray,
                    h0: map<MArray, seq<Slot>>, h1: map<MArray, seq<Slot>>, h2: map<MArray, seq<Slot>>)
    requires prefix != [] && Ranked(g, rank) && expr in g
    requires Walked(prefix, g, rank, expr, h0, h1)
    requires Walked(prefix, g, rank, expr, h1, h2)
    ensures Walked(prefix, g, rank, expr, h0, h2)
  {
    forall b | b in g {
      RetagIdempotent(prefix, h0[b]);
    }
  }

  // ---------------------------------------------------------------------
  // The walk

  /** `_substituteVariable(varWithDot, expr)`: rewrite element 0 of `expr`,
      then walk every mutable array among its other elements.  Every array
      the walk reaches is retagged; every other array is left as it was. */
  method ResolveIn(prefix: string, expr: MArray, ghost g: map<MArray, seq<Slot>>, ghost rank: map<MArray, nat>)
    requires prefix != []
    requires Ranked(g, rank) && expr in g && Conforms(g)
    modifies g.Keys
    ensures Conforms(g)
    ensures Walked(prefix, g, rank, expr, old(Snapshot(g)), Snapshot(g))
    decreases rank[expr]
  {
    ghost var before := Snapshot(g);
    var n := |expr.elems|;
    var index := 0;
    WalkStart(prefix, g, rank, expr, before);
    while index < n
      invariant 0 <= index <= n == |g[expr]|
      invariant WalkedUpTo(prefix, g, rank, expr, index, before, Snapshot(g))
    {
      WalkedUpToShaped(prefix, g, rank, expr, index, before, Snapshot(g));
      var item := expr.elems[index];
      if index == 0 {
        ghost var now := Snapshot(g);
        if HasPathPrefix(AsString(item), prefix) {
          var op := AsString(item);
          op := ['?'] + op[1..];
          expr.elems := expr.elems[0 := StringSlot(CStr(op))];
        }
        WalkHeadStep(prefix, g, rank, expr, before, Snapshot(g));
      } else if item.ArraySlot? {
        ghost var mid := Snapshot(g);
        ResolveIn(prefix, item.arr, g, rank);
        WalkChildStep(prefix, g, rank, expr, index, before, mid, Snapshot(g));
      } else {
        WalkSkipStep(prefix, g, rank, expr, index, before, Snapshot(g));
      }
      index := index + 1;
    }
    WalkDone(prefix, g, rank, expr, before, Snapshot(g));
    WalkedShaped(prefix, g, rank, expr, before, Snapshot(g));
  }

  /** `substituteVariable(var, expr)`: references rooted at `var` become
      variable references. */
  method SubstituteVariable(name: string, expr: MArray, ghost g: map<MArray, seq<Slot>>, ghost rank: map<MArray, nat>)
    requires Ranked(g, rank) && expr in g && Conforms(g)
    modifies g.Keys
    ensures Conforms(g)
    ensures Walked(['.'] + name, g, rank, expr, old(Snapshot(g)), Snapshot(g))
  {
    ResolveIn(['.'] + name, expr, g, rank);
  }

  /** Substituting the same variable twice leaves the tree as once does. */
  method SubstituteVariableTwice(name: string, expr: MArray, ghost g: map<MArray, seq<Slot>>, ghost rank: map<MArray, nat>)
    requires Ranked(g, rank) && expr in g && Conforms(g)
    modifies g.Keys
    ensures Conforms(g)
    ensures Walked(['.'] + name, g, rank, expr, old(Snapshot(g)), Snapshot(g))
  {
    ghost var h0 := Snapshot(g);
    SubstituteVariable(name, expr, g, rank);
    ghost var h1 := Snapshot(g);
    SubstituteVariable(name, expr, g, rank);
    WalkedTwice(['.'] + name, g, rank, expr, h0, h1, Snapshot(g));
  }
}
