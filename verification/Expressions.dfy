/** Expression trees, the checks their constructors make, and which coordinates can be nonzero. */
module Expressions {
  import opened Radix
  import opened Wrappers
  import opened Request
  import opened Mapping
  import opened Geometry
  import opened Slices
  import opened Occupied
  import opened StorageRead
  import opened SparseStore
  import opened OrderedTraversal
  import opened SparseViews

  // ---------------------------------------------------------------------
  // Trees
  // ---------------------------------------------------------------------

  /** The bound on one description and on one traversal. */
  const MAX_EXPRESSION_NODES: nat := 65536

  /** A source or an operation over operands. Elements of every type live in one universe, and `zero` is
      the zero of the element type of an expression. `Leaf` enumerates whole selections: dense storage,
      matrix products and reductions. `Stored` is a sparse tensor, or a view of one through a map. */
  datatype Expr<!T> =
    | Leaf(shape: seq<nat>, sparse: bool, value: Coord -> T, zero: T)
    | Stored(g: Storage, table: map<nat, seq<T>>, mapping: Option<CoordinateMap>, zero: T)
    | Unary(op: T -> T, source: Expr<T>, zero: T)
    | Binary(combine: (T, T) -> T, left: Expr<T>, right: Expr<T>, zero: T)
    | Where(condition: Expr<T>, chosen: Expr<T>, otherwise: Expr<T>)
    | Owned(source: Expr<T>, dense: bool, through: CoordinateMap)

  function Shape<T>(e: Expr<T>): seq<nat> {
    match e
    case Leaf(shape, _, _, _) => shape
    case Stored(g, _, mapping, _) => ViewShape(g, mapping)
    case Unary(_, source, _) => Shape(source)
    case Binary(_, left, _, _) => Shape(left)
    case Where(condition, _, _) => Shape(condition)
    case Owned(_, _, through) => through.shape
  }

  /** `implicit_zero`: the value of an element nothing stores. */
  function Zero<T>(e: Expr<T>): T {
    match e
    case Leaf(_, _, _, zero) => zero
    case Stored(_, _, _, zero) => zero
    case Unary(_, _, zero) => zero
    case Binary(_, _, _, zero) => zero
    case Where(_, _, otherwise) => Zero(otherwise)
    case Owned(source, _, _) => Zero(source)
  }

  /** The layout: sparse only when every operand is. */
  predicate Sparse<T>(e: Expr<T>) {
    match e
    case Leaf(_, sparse, _, _) => sparse
    case Stored(_, _, _, _) => true
    case Unary(_, source, _) => Sparse(source)
    case Binary(_, left, right, _) => Sparse(left) && Sparse(right)
    case Where(condition, chosen, otherwise) => Sparse(condition) && Sparse(chosen) && Sparse(otherwise)
    case Owned(source, dense, _) => !dense && Sparse(source)
  }

  /** The base coordinate an owned expression reads for a logical one. */
  function Through(mapping: CoordinateMap, shape: seq<nat>, c: Coord): Coord {
    if mapping.Valid() && InShape(c, mapping.shape) && Positive(shape) then Decode(Max(0, mapping.Offset(c)), shape) else c
  }

  /** The meaning of an expression: evaluate operands at the coordinate, then the operation. */
  function Value<T(==)>(e: Expr<T>, c: Coord): T {
    match e
    case Leaf(_, _, value, _) => value(c)
    case Stored(g, table, mapping, zero) => ViewValue(g, table, mapping, zero, c)
    case Unary(op, source, _) => op(Value(source, c))
    case Binary(combine, left, right, _) => combine(Value(left, c), Value(right, c))
    case Where(condition, chosen, otherwise) =>
      if Value(condition, c) != Zero(condition) then Value(chosen, c) else Value(otherwise, c)
    case Owned(source, _, through) => Value(source, Through(through, Shape(source), c))
  }

  /** The value of an expression at a coordinate, as a function. */
  function Valuation<T(==)>(e: Expr<T>): Coord -> T {
    c => Value(e, c)
  }

  // ---------------------------------------------------------------------
  // Constructors
  // ---------------------------------------------------------------------

  /** `node_count`: one description more than its operands, within the bound. */
  function Counted(operands: nat): (r: Result<nat>)
    ensures r.Ok? <==> 1 + operands <= MAX_EXPRESSION_NODES
  {
    if 1 + operands <= MAX_EXPRESSION_NODES then Ok(1 + operands) else Err(Unsupported)
  }

  /** How many descriptions a tree holds. */
  function Nodes<T>(e: Expr<T>): (n: nat)
    ensures n > 0
  {
    match e
    case Leaf(_, _, _, _) => 1
    case Stored(_, _, _, _) => 1
    case Unary(_, source, _) => 1 + Nodes(source)
    case Binary(_, left, right, _) => 1 + Nodes(left) + Nodes(right)
    case Where(condition, chosen, otherwise) => 1 + Nodes(condition) + Nodes(chosen) + Nodes(otherwise)
    case Owned(source, _, _) => 1 + Nodes(source)
  }

  /** `expression_nodes`: the count of a tree, checked at every node. */
  function NodeCount<T>(e: Expr<T>): (r: Result<nat>)
    ensures r.Ok? <==> Nodes(e) <= MAX_EXPRESSION_NODES
    ensures r.Ok? ==> r.value == Nodes(e)
  {
    match e
    case Leaf(_, _, _, _) => Ok(1)
    case Stored(_, _, _, _) => Ok(1)
    case Unary(_, source, _) =>
      var n :- NodeCount(source);
      Counted(n)
    case Binary(_, left, right, _) =>
      var l :- NodeCount(left);
      var r :- NodeCount(right);
      Counted(l + r)
    case Where(condition, chosen, otherwise) =>
      var c :- NodeCount(condition);
      var l :- NodeCount(chosen);
      var r :- NodeCount(otherwise);
      Counted(c + l + r)
    case Owned(source, _, _) =>
      var n :- NodeCount(source);
      Counted(n)
  }

  /** What the constructors of the whole tree have accepted. */
  ghost predicate WellFormed<T>(e: Expr<T>) {
    && Positive(Shape(e)) && Size(Shape(e)) <= U64_MAX && |Shape(e)| <= MAX_RANK
    && match e
       case Leaf(_, _, _, _) => true
       case Stored(g, table, mapping, zero) => TableValid(table, g, zero) && ViewOf(g, ViewMap(g, mapping))
       case Unary(op, source, zero) => WellFormed(source) && (Sparse(source) ==> op(Zero(source)) == zero)
       case Binary(combine, left, right, zero) =>
         && WellFormed(left) && WellFormed(right)
         && Shape(left) == Shape(right)
         && (Sparse(left) && Sparse(right) ==> combine(Zero(left), Zero(right)) == zero)
       case Where(condition, chosen, otherwise) =>
         && WellFormed(condition) && WellFormed(chosen) && WellFormed(otherwise)
         && Shape(condition) == Shape(chosen) == Shape(otherwise) && Zero(chosen) == Zero(otherwise)
       case Owned(source, _, through) => WellFormed(source) && through.Good(Size(Shape(source))) && NodeCount(e).Ok?
  }

  /** `UnaryView::new`: an operation on sparse input must take its implicit zero to that of the result. */
  function NewUnary<T(==)>(op: T -> T, source: Expr<T>, zero: T): (r: Result<Expr<T>>)
    ensures r.Ok? <==> !Sparse(source) || op(Zero(source)) == zero
    ensures r.Err? ==> r.error == WouldDensify
    ensures r.Ok? && WellFormed(source) ==> WellFormed(r.value) && Zero(r.value) == zero
    ensures r.Ok? ==> Shape(r.value) == Shape(source) && forall c :: Value(r.value, c) == op(Value(source, c))
  {
    if Sparse(source) && op(Zero(source)) != zero then Err(WouldDensify) else Ok(Unary(op, source, zero))
  }

  /** `BinaryView::new`: equal shapes, and two sparse operands must give the implicit zero of the result. */
  function NewBinary<T(==)>(combine: (T, T) -> T, left: Expr<T>, right: Expr<T>, zero: T): (r: Result<Expr<T>>)
    ensures r.Ok? <==>
              Shape(left) == Shape(right) && (Sparse(left) && Sparse(right) ==> combine(Zero(left), Zero(right)) == zero)
    ensures r.Ok? && WellFormed(left) && WellFormed(right) ==> WellFormed(r.value) && Zero(r.value) == zero
    ensures r.Ok? ==> Shape(r.value) == Shape(left) && forall c :: Value(r.value, c) == combine(Value(left, c), Value(right, c))
  {
    if Shape(left) != Shape(right) then Err(InvalidSchema)
    else if Sparse(left) && Sparse(right) && combine(Zero(left), Zero(right)) != zero then Err(WouldDensify)
    else Ok(Binary(combine, left, right, zero))
  }

  /** `TensorExpression::new`: the description is counted and read through the identity map. */
  function NewOwned<T>(source: Expr<T>): (r: Result<Expr<T>>)
    requires Positive(Shape(source)) && Size(Shape(source)) <= U64_MAX
    ensures r.Ok? <==> NodeCount(source).Ok? && NodeCount(source).value < MAX_EXPRESSION_NODES
    ensures r.Ok? ==> Shape(r.value) == Shape(source) && (Sparse(r.value) <==> Sparse(source))
  {
    var n :- NodeCount(source);
    var nodes :- Counted(n);
    Ok(Owned(source, false, Identity(Shape(source))))
  }

  /** An accepted owned expression has the values of its source. */
  lemma NewOwnedValue<T>(source: Expr<T>, c: Coord)
    requires WellFormed(source) && NewOwned(source).Ok? && InShape(c, Shape(source))
    ensures WellFormed(NewOwned(source).value)
    ensures Value(NewOwned(source).value, c) == Value(source, c)
  {
    hide Value, Size;
    var e := NewOwned(source).value;
    IdentityGood(Shape(source));
    IdentityThrough(e.through, Shape(source), c);
    OwnedValue(source, e.through, c);
  }

  lemma OwnedValue<T>(source: Expr<T>, through: CoordinateMap, c: Coord)
    ensures Value(Owned(source, false, through), c) == Value(source, Through(through, Shape(source), c))
  {}

  /** `cond`: three operands of one shape; the branches have one element type. */
  function NewWhere<T(==)>(condition: Expr<T>, chosen: Expr<T>, otherwise: Expr<T>): (r: Result<Expr<T>>)
    requires Zero(chosen) == Zero(otherwise)
    ensures r.Ok? <==> Shape(condition) == Shape(chosen) == Shape(otherwise)
    ensures r.Ok? && WellFormed(condition) && WellFormed(chosen) && WellFormed(otherwise) ==> WellFormed(r.value)
    ensures r.Ok? ==> Shape(r.value) == Shape(condition) && Zero(r.value) == Zero(otherwise)
    ensures r.Ok? ==> forall c ::
              Value(r.value, c) == if Value(condition, c) == Zero(condition) then Value(otherwise, c) else Value(chosen, c)
  {
    if Shape(condition) != Shape(chosen) || Shape(condition) != Shape(otherwise) then Err(InvalidSchema)
    else Ok(Where(condition, chosen, otherwise))
  }

  // ---------------------------------------------------------------------
  // Layout
  // ---------------------------------------------------------------------

  /** An expression and everything it is built from. */
  function Parts<T>(e: Expr<T>): (parts: seq<Expr<T>>)
    ensures |parts| == Nodes(e) && parts[0] == e
  {
    match e
    case Leaf(_, _, _, _) => [e]
    case Stored(_, _, _, _) => [e]
    case Unary(_, source, _) => [e] + Parts(source)
    case Binary(_, left, right, _) => [e] + Parts(left) + Parts(right)
    case Where(condition, chosen, otherwise) => [e] + Parts(condition) + Parts(chosen) + Parts(otherwise)
    case Owned(source, _, _) => [e] + Parts(source)
  }

  /** An expression is sparse exactly when every source below it is and no owned expression on the way
      is marked dense. */
  lemma {:induction false} SparseIs<T>(e: Expr<T>)
    ensures Sparse(e) <==> forall x :: x in Parts(e) ==> (x.Leaf? ==> x.sparse) && (x.Owned? ==> !x.dense)
    decreases e
  {
    match e
    case Leaf(_, _, _, _) =>
    case Stored(_, _, _, _) =>
    case Unary(_, source, _) => SparseIs(source);
    case Binary(_, left, right, _) =>
      SparseIs(left);
      SparseIs(right);
    case Where(condition, chosen, otherwise) =>
      SparseIs(condition);
      SparseIs(chosen);
      SparseIs(otherwise);
    case Owned(source, _, _) => SparseIs(source);
  }

  /** A sparse expression is zero wherever every expression its traversal stops at is zero. */
  lemma {:induction false} ZeroBackground<T>(e: Expr<T>, c: Coord)
    requires WellFormed(e) && Sparse(e) && InShape(c, Shape(e))
    requires forall x :: x in Ends(e) ==> Value(x, c) == Zero(x)
    ensures Value(e, c) == Zero(e)
    decreases e
  {
    hide ViewValue, ViewOf, TableValid, NodeCount, Size;
    match e
    case Leaf(_, _, _, _) => assert e in Ends(e);
    case Stored(_, _, _, _) => assert e in Ends(e);
    case Unary(_, source, _) => ZeroBackground(source, c);
    case Binary(_, left, right, _) =>
      assert Ends(e) == Ends(left) + Ends(right);
      ZeroBackground(left, c);
      ZeroBackground(right, c);
    case Where(condition, chosen, otherwise) =>
      assert Ends(e) == Ends(condition) + Ends(chosen) + Ends(otherwise);
      ZeroBackground(condition, c);
      ZeroBackground(chosen, c);
      ZeroBackground(otherwise, c);
    case Owned(source, _, through) =>
      if IsIdentity(through, Shape(source)) {
        IdentityThrough(through, Shape(source), c);
        ZeroBackground(source, c);
      } else {
        assert e in Ends(e);
      }
  }

  // ---------------------------------------------------------------------
  // Candidates
  // ---------------------------------------------------------------------

  /** Where a traversal delegates to, if it does not stop here. */
  function Sources<T>(e: Expr<T>): Option<seq<Expr<T>>> {
    match e
    case Leaf(_, _, _, _) => None
    case Stored(_, _, _, _) => None
    case Unary(_, source, _) => Some([source])
    case Binary(_, left, right, _) => if Sparse(e) then Some([left, right]) else None
    case Where(condition, chosen, otherwise) => if Sparse(e) then Some([condition, chosen, otherwise]) else None
    case Owned(source, _, through) => if Sparse(e) && IsIdentity(through, Shape(source)) then Some([source]) else None
  }

  /** The expressions where a traversal stops, left to right. */
  function Ends<T>(e: Expr<T>): seq<Expr<T>>
    decreases e
  {
    match e
    case Leaf(_, _, _, _) => [e]
    case Stored(_, _, _, _) => [e]
    case Unary(_, source, _) => Ends(source)
    case Binary(_, left, right, _) => if Sparse(e) then Ends(left) + Ends(right) else [e]
    case Where(condition, chosen, otherwise) =>
      if Sparse(e) then Ends(condition) + Ends(chosen) + Ends(otherwise) else [e]
    case Owned(source, _, through) => if Sparse(e) && IsIdentity(through, Shape(source)) then Ends(source) else [e]
  }

  /** A coordinate an expression has to enumerate: every one of a dense expression, the nonzero ones
      of a sparse one. */
  predicate Wanted<T(==)>(e: Expr<T>, c: Coord) {
    Value(e, c) != Zero(e) || !Sparse(e)
  }

  predicate SomeWanted<T(==)>(ends: seq<Expr<T>>, c: Coord) {
    exists i :: 0 <= i < |ends| && Wanted(ends[i], c)
  }

  lemma WantedBySome<T>(a: seq<Expr<T>>, b: seq<Expr<T>>, c: Coord)
    ensures SomeWanted(a + b, c) <==> SomeWanted(a, c) || SomeWanted(b, c)
  {
    hide Wanted;
    if SomeWanted(a, c) {
      var i :| 0 <= i < |a| && Wanted(a[i], c);
      assert (a + b)[i] == a[i];
    }
    if SomeWanted(b, c) {
      var i :| 0 <= i < |b| && Wanted(b[i], c);
      assert (a + b)[|a| + i] == b[i];
    }
  }

  lemma WantedHere<T>(e: Expr<T>, c: Coord)
    requires Wanted(e, c)
    ensures SomeWanted([e], c)
  {
    hide Wanted;
    assert [e][0] == e;
  }

  /** A coordinate wanted of a tree is wanted of an expression where its traversal stops. */
  lemma {:induction false} NonzeroIsCandidate<T>(e: Expr<T>, c: Coord)
    requires WellFormed(e) && InShape(c, Shape(e))
    ensures Value(e, c) != Zero(e) || !Sparse(e) ==> SomeWanted(Ends(e), c)
    decreases e
  {
    hide SomeWanted, ViewValue, ViewOf, TableValid;
    if Wanted(e, c) {
      WantedHere(e, c);
      if Sources(e).Some? {
        match e {
          case Unary(_, source, _) =>
            NonzeroIsCandidate(source, c);
          case Binary(_, left, right, _) =>
            NonzeroIsCandidate(left, c);
            NonzeroIsCandidate(right, c);
            WantedBySome(Ends(left), Ends(right), c);
          case Where(condition, chosen, otherwise) =>
            NonzeroIsCandidate(condition, c);
            NonzeroIsCandidate(chosen, c);
            NonzeroIsCandidate(otherwise, c);
            WantedBySome(Ends(condition), Ends(chosen), c);
            WantedBySome(Ends(condition) + Ends(chosen), Ends(otherwise), c);
          case Owned(source, _, through) =>
            IdentityThrough(through, Shape(source), c);
            NonzeroIsCandidate(source, c);
        }
      }
    }
  }

  /** Through an identity map every coordinate reads itself. */
  lemma IdentityThrough(mapping: CoordinateMap, shape: seq<nat>, c: Coord)
    requires Positive(shape) && Size(shape) <= U64_MAX && IsIdentity(mapping, shape) && InShape(c, mapping.shape)
    ensures Through(mapping, shape, c) == c
  {
    IdentityIs(mapping, shape, c);
    DecodeOfFlat(c, shape);
  }

  /** A sorted enumeration of an expression: all of a dense one, every nonzero of a sparse one. */
  ghost predicate Enumerates<T>(e: Expr<T>, slice: Slice, coords: seq<Coord>) {
    && Complete(Valuation(e), Zero(e), slice, coords)
    && (!Sparse(e) ==> coords == slice.Coords())
  }

  /** One enumeration per expression. */
  ghost predicate AllEnumerated<T>(ends: seq<Expr<T>>, slice: Slice, streams: seq<seq<Coord>>) {
    |streams| == |ends| && forall i :: 0 <= i < |ends| ==> Enumerates(ends[i], slice, streams[i])
  }

  predicate InSome(x: Coord, streams: seq<seq<Coord>>) {
    exists i :: 0 <= i < |streams| && x in streams[i]
  }

  /** A list holding exactly the members of every end's enumeration, sorted, covers the tree. */
  lemma UnionEnumerates<T>(e: Expr<T>, slice: Slice, streams: seq<seq<Coord>>, coords: seq<Coord>)
    requires WellFormed(e) && slice.Valid() && slice.shape == Shape(e) && StrictAxes(slice)
    requires AllEnumerated(Ends(e), slice, streams)
    requires InOrder(coords) && forall x :: x in coords <==> InSome(x, streams)
    ensures Enumerates(e, slice, coords)
  {
    hide InOrder, Slice.Coords, WellFormed, Ends, Enumerates, Sparse;
    var ends := Ends(e);
    forall x | x in coords ensures x in slice.Coords() {
      var i :| 0 <= i < |streams| && x in streams[i];
      EnumeratesPart(ends[i], slice, streams[i], x);
    }
    forall x | x in slice.Coords() && Wanted(e, x) ensures x in coords {
      SelectedInShape(slice, x);
      NonzeroIsCandidate(e, x);
      var i :| 0 <= i < |ends| && Wanted(ends[i], x);
      EnumeratesPart(ends[i], slice, streams[i], x);
      assert InSome(x, streams);
    }
    EnumeratesWanted(e, slice, coords);
  }

  lemma SelectedInShape(slice: Slice, x: Coord)
    requires slice.Valid() && x in slice.Coords()
    ensures InShape(x, slice.shape)
  {
    SliceInside(slice);
  }

  lemma EnumeratesPart<T>(e: Expr<T>, slice: Slice, coords: seq<Coord>, x: Coord)
    requires Enumerates(e, slice, coords)
    ensures x in coords ==> x in slice.Coords()
    ensures x in slice.Coords() && Wanted(e, x) ==> x in coords
  {
    hide InOrder, Slice.Coords, Value, Sparse;
    assert Valuation(e)(x) == Value(e, x);
  }

  /** Holding every wanted coordinate is enough. */
  lemma EnumeratesWanted<T>(e: Expr<T>, slice: Slice, coords: seq<Coord>)
    requires slice.Valid() && StrictAxes(slice) && InOrder(coords)
    requires forall x :: x in coords ==> x in slice.Coords()
    requires forall x :: x in slice.Coords() && Wanted(e, x) ==> x in coords
    ensures Enumerates(e, slice, coords)
  {
    hide InOrder, Slice.Coords, Value, Sparse;
    forall x | x in slice.Coords() ensures Valuation(e)(x) != Zero(e) ==> x in coords {
      assert Valuation(e)(x) == Value(e, x);
    }
    if !Sparse(e) {
      forall x ensures x in coords <==> x in slice.Coords() {
        assert x in slice.Coords() ==> Wanted(e, x);
      }
      SliceInOrder(slice);
      InOrderUnique(coords, slice.Coords());
    }
  }

  /** Enumerating the whole selection covers any expression. */
  lemma WholeEnumerates<T>(e: Expr<T>, slice: Slice)
    requires slice.Valid() && StrictAxes(slice)
    ensures Enumerates(e, slice, slice.Coords())
  {
    hide InOrder, Slice.Coords, Value, Sparse;
    SliceInOrder(slice);
  }

  // ---------------------------------------------------------------------
  // Sorted coordinate lists
  // ---------------------------------------------------------------------

  /** Two sorted lists of the same coordinates are the same list. */
  lemma {:induction false} InOrderUnique(s: seq<Coord>, t: seq<Coord>)
    requires InOrder(s) && InOrder(t) && forall x :: x in s <==> x in t
    ensures s == t
    decreases |s|
  {
    hide Before;
    if s == [] {
      HasMember(t);
    } else {
      assert s[0] in t;
      var a, b := s[|s| - 1], t[|t| - 1];
      LastGreatest(s, t);
      LastGreatest(t, s);
      assert a == b by {
        if a != b {
          BeforeAsymmetric(a, b);
        }
      }
      WithoutLast(s);
      WithoutLast(t);
      var u, v := s[..|s| - 1], t[..|t| - 1];
      forall x ensures x in u <==> x in v {
        assert x in s <==> x in t;
        assert x in u <==> x in s && x != a;
        assert x in v <==> x in t && x != b;
      }
      InOrderUnique(u, v);
    }
  }

  lemma HasMember(t: seq<Coord>)
    ensures t == [] || exists x :: x in t
  {
    if t != [] {
      assert t[0] in t;
    }
  }

  /** The last of one list is not after the last of a list with the same members. */
  lemma LastGreatest(s: seq<Coord>, t: seq<Coord>)
    requires InOrder(s) && s != [] && t != [] && forall x :: x in s <==> x in t
    ensures t[|t| - 1] != s[|s| - 1] ==>
              |t[|t| - 1]| == |s[|s| - 1]| && Before(t[|t| - 1], s[|s| - 1])
  {
    hide Before;
    assert t[|t| - 1] in s;
  }

  lemma WithoutLast(s: seq<Coord>)
    requires InOrder(s) && s != []
    ensures InOrder(s[..|s| - 1]) && forall x :: x in s[..|s| - 1] <==> x in s && x != s[|s| - 1]
  {
    var n := |s| - 1;
    forall x ensures x in s[..n] <==> x in s && x != s[n] {
      if x in s[..n] {
        var i :| 0 <= i < n && s[i] == x;
        assert Before(s[i], s[n]);
        if x == s[n] {
          BeforeAsymmetric(s[n], s[n]);
        }
      }
    }
  }
}
