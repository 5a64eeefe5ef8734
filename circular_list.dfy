/** `CircularList<T>`: a linked list with a mutable cursor node that wraps
    around at both ends.  Nodes are identified by their position, so the list
    is a sequence of values and the cursor an optional index into it; the
    exceptions the C# code throws become `Fail` outcomes that leave the list
    as it was. */
module CircularList {
  import opened Wrappers

  /** The exceptions the list's members can raise. */
  datatype ListError =
    | ArgumentError      // a negative step count
    | NullReference      // dereferencing the cursor of an empty list
    | ArgumentNull       // `AddAfter`/`AddBefore` given a null node
    | IndexOutOfRange    // an index outside the node array

  // ---------------------------------------------------------------------------
  // Cursor arithmetic

  /** `current.Next ?? First` on a list of `count` nodes. */
  function StepRight(c: nat, count: nat): (r: nat)
    requires c < count
    ensures r < count
    ensures r == (c + 1) % count
  {
    if c + 1 < count then c + 1 else 0
  }

  /** `current.Previous ?? Last` on a list of `count` nodes. */
  function StepLeft(c: nat, count: nat): (r: nat)
    requires c < count
    ensures r < count
    ensures r == (c - 1) % count
  {
    if c > 0 then c - 1 else count - 1
  }

  /** Division with remainder is unique: `m * q + r` with `0 <= r < m` has
      quotient `q` and remainder `r`. */
  lemma ModUnique(a: int, m: int, q: int, r: int)
    requires m > 0 && 0 <= r < m && a == m * q + r
    ensures a % m == r && a / m == q
  {
    var q', r' := a / m, a % m;
    assert m * (q' - q) == r - r';
    MulBounds(m, q' - q);
  }

  lemma MulBounds(m: int, d: int)
    requires m > 0
    ensures d >= 1 ==> m * d >= m
    ensures d <= -1 ==> m * d <= -m
  {
  }

  /** Stepping right from `a mod m` lands on `(a + 1) mod m`. */
  lemma ModSucc(a: int, m: int)
    requires m > 0
    ensures ((a % m) + 1) % m == (a + 1) % m
  {
    var q, r := a / m, a % m;
    if r + 1 < m {
      ModUnique(r + 1, m, 0, r + 1);
      ModUnique(a + 1, m, q, r + 1);
    } else {
      ModUnique(r + 1, m, 1, 0);
      assert m * (q + 1) == m * q + m;
      ModUnique(a + 1, m, q + 1, 0);
    }
  }

  /** Stepping left from `a mod m` lands on `(a - 1) mod m`. */
  lemma ModPred(a: int, m: int)
    requires m > 0
    ensures ((a % m) - 1) % m == (a - 1) % m
  {
    var q, r := a / m, a % m;
    if r > 0 {
      ModUnique(r - 1, m, 0, r - 1);
      ModUnique(a - 1, m, q, r - 1);
    } else {
      ModUnique(r - 1, m, -1, m - 1);
      assert m * (q - 1) == m * q - m;
      ModUnique(a - 1, m, q - 1, m - 1);
    }
  }

  /** `k` steps right and then `k` steps left return to the start. */
  lemma MoveRoundTrip(c: nat, k: nat, count: nat)
    requires c < count
    ensures (((c + k) % count) - k) % count == c
  {
    var q := (c + k) / count;
    assert count * (-q) == -(count * q);
    ModUnique(((c + k) % count) - k, count, -q, c);
  }

  /** Where the cursor goes when node `k` of `count` is removed: to its
      successor (which then has index `k`), else its predecessor, else nowhere. */
  function AfterRemoval(k: nat, count: nat): (r: Option<nat>)
    requires k < count
    ensures r == None <==> count == 1
    ensures r.Some? ==> r.value < count - 1
    ensures r.Some? && k + 1 < count ==> r.value == k
    ensures k + 1 == count && k > 0 ==> r == Some(k - 1)
  {
    if k + 1 < count then Some(k) else if k > 0 then Some(k - 1) else None
  }

  /** The sequence without its entry at `k`. */
  function RemoveAt<T>(s: seq<T>, k: nat): (r: seq<T>)
    requires k < |s|
    ensures |r| == |s| - 1
    ensures forall i :: 0 <= i < k ==> r[i] == s[i]
    ensures forall i :: k <= i < |r| ==> r[i] == s[i + 1]
  {
    s[..k] + s[k + 1..]
  }

  /** `LinkedList.Find`: the index of the first entry equal to `v`, or -1. */
  function IndexOf<T(==)>(s: seq<T>, v: T): (k: int)
    ensures k == -1 <==> v !in s
    ensures 0 <= k ==> k < |s| && s[k] == v && v !in s[..k]
    ensures -1 <= k
  {
    if s == [] then -1
    else if s[0] == v then 0
    else
      var k := IndexOf(s[1..], v);
      assert s[1..][..if k < 0 then 0 else k] == s[1..if k < 0 then 1 else k + 1];
      if k < 0 then -1 else k + 1
  }

  /** `ToString`: every value followed by a comma, with `show` standing for
      `StringBuilder.Append(value)`. */
  function Render<T>(xs: seq<T>, show: T -> string): string
  {
    if xs == [] then "" else Render(xs[..|xs| - 1], show) + show(xs[|xs| - 1]) + ","
  }

  function CountOf(s: string, ch: char): nat
  {
    if s == [] then 0 else CountOf(s[..|s| - 1], ch) + (if s[|s| - 1] == ch then 1 else 0)
  }

  lemma {:induction false} CountOfConcat(s: string, t: string, ch: char)
    ensures CountOf(s + t, ch) == CountOf(s, ch) + CountOf(t, ch)
    decreases |t|
  {
    if t == [] {
      assert s + t == s;
    } else {
      var t' := t[..|t| - 1];
      assert (s + t)[..|s + t| - 1] == s + t';
      CountOfConcat(s, t', ch);
    }
  }

  /** Rendering distributes over concatenation. */
  lemma {:induction false} RenderConcat<T>(xs: seq<T>, ys: seq<T>, show: T -> string)
    ensures Render(xs + ys, show) == Render(xs, show) + Render(ys, show)
    decreases |ys|
  {
    if ys == [] {
      assert xs + ys == xs;
    } else {
      var ys' := ys[..|ys| - 1];
      assert (xs + ys)[..|xs + ys| - 1] == xs + ys';
      RenderConcat(xs, ys', show);
    }
  }

  /** A single value renders as its text followed by a comma. */
  lemma RenderSingle<T>(x: T, show: T -> string)
    ensures Render([x], show) == show(x) + ","
  {
    assert [x][..0] == [];
  }

  /** Read from the front: the first value's text and a comma, then the
      rendering of the rest, so the texts appear in list order. */
  lemma RenderFront<T>(xs: seq<T>, show: T -> string)
    requires xs != []
    ensures Render(xs, show) == show(xs[0]) + "," + Render(xs[1..], show)
  {
    assert xs == [xs[0]] + xs[1..];
    RenderConcat([xs[0]], xs[1..], show);
    RenderSingle(xs[0], show);
  }

  /** When no value's text holds a comma, the rendering holds one comma per
      value, and a non-empty rendering ends with one. */
  lemma {:induction false} RenderSeparators<T>(xs: seq<T>, show: T -> string)
    requires forall i :: 0 <= i < |xs| ==> ',' !in show(xs[i])
    ensures CountOf(Render(xs, show), ',') == |xs|
    decreases |xs|
  {
    if xs != [] {
      var front, x := xs[..|xs| - 1], xs[|xs| - 1];
      RenderSeparators(front, show);
      CountOfConcat(Render(front, show) + show(x), ",", ',');
      CountOfConcat(Render(front, show), show(x), ',');
      CommaFree(show(x));
    }
  }

  lemma {:induction false} CommaFree(s: string)
    requires ',' !in s
    ensures CountOf(s, ',') == 0
    decreases |s|
  {
    if s != [] {
      assert s[|s| - 1] in s;
      assert forall c :: c in s[..|s| - 1] ==> c in s;
      CommaFree(s[..|s| - 1]);
    }
  }

  // ---------------------------------------------------------------------------
  // The list

  class CircularList<T(==)> {
    /** The values in list order. */
    var items: seq<T>
    /** The index of the `current` node; `None` for the null node. */
    var cursor: Option<nat>

    /** The cursor is null exactly when the list is empty, and otherwise
        designates one of its nodes. */
    ghost predicate Valid()
      reads this
    {
      && (cursor.None? <==> items == [])
      && (cursor.Some? ==> cursor.value < |items|)
    }

    constructor()
      ensures Valid()
      ensures items == [] && cursor == None
    {
      items := [];
      cursor := None;
    }

    /** `Current`: the value at the cursor; a null cursor throws. */
    function Current(): (r: Result<T, ListError>)
      reads this
      requires Valid()
      ensures r.Failure? <==> items == []
      ensures r.Failure? ==> r.error == NullReference
      ensures r.Success? ==> r.value == items[GetIndex()]
    {
      match cursor
      case None => Failure(NullReference)
      case Some(c) => Success(items[c])
    }

    /** `this[i]`: the `i`-th value in list order. */
    function At(i: int): (r: Result<T, ListError>)
      reads this
      ensures r.Success? <==> 0 <= i < |items|
      ensures r.Success? ==> r.value == items[i]
      ensures r.Failure? ==> r.error == IndexOutOfRange
    {
      if 0 <= i < |items| then Success(items[i]) else Failure(IndexOutOfRange)
    }

    /** `GetIndex`: the position of the cursor node, -1 when it is null. */
    function GetIndex(): (r: int)
      reads this
      requires Valid()
      ensures r == -1 <==> items == []
      ensures r != -1 ==> 0 <= r < |items| && cursor == Some(r)
    {
      match cursor
      case None => -1
      case Some(c) => c
    }

    /** `MoveLeft(n)`: `n` steps towards the head, wrapping to the last node. */
    method MoveLeft(n: int) returns (o: Outcome<ListError>)
      requires Valid()
      modifies this
      ensures Valid()
      ensures n < 0 ==> o == Fail(ArgumentError)
      ensures n > 0 && old(items) == [] ==> o == Fail(NullReference)
      ensures o.Fail? ==> items == old(items) && cursor == old(cursor)
      ensures n >= 0 && old(items) != [] ==>
        o == Pass && items == old(items) && cursor == Some((old(cursor).value - n) % |items|)
      ensures n == 0 ==> o == Pass && items == old(items) && cursor == old(cursor)
    {
      if n < 0 {
        return Fail(ArgumentError);
      }
      if cursor.Some? {
        ModUnique(cursor.value, |items|, 0, cursor.value);
      }
      var i := 0;
      while i < n
        invariant 0 <= i <= n
        invariant Valid() && items == old(items)
        invariant old(cursor).Some? ==> cursor == Some((old(cursor).value - i) % |items|)
        invariant old(cursor).None? ==> cursor == None && i == 0
      {
        match cursor {
          case None =>
            return Fail(NullReference);
          case Some(c) =>
            ModPred(old(cursor).value - i, |items|);
            cursor := Some(StepLeft(c, |items|));
        }
        i := i + 1;
      }
      return Pass;
    }

    /** `MoveRight(n)`: `n` steps towards the tail, wrapping to the first node. */
    method MoveRight(n: int) returns (o: Outcome<ListError>)
      requires Valid()
      modifies this
      ensures Valid()
      ensures n < 0 ==> o == Fail(ArgumentError)
      ensures n > 0 && old(items) == [] ==> o == Fail(NullReference)
      ensures o.Fail? ==> items == old(items) && cursor == old(cursor)
      ensures n >= 0 && old(items) != [] ==>
        o == Pass && items == old(items) && cursor == Some((old(cursor).value + n) % |items|)
      ensures n == 0 ==> o == Pass && items == old(items) && cursor == old(cursor)
    {
      if n < 0 {
        return Fail(ArgumentError);
      }
      if cursor.Some? {
        ModUnique(cursor.value, |items|, 0, cursor.value);
      }
      var i := 0;
      while i < n
        invariant 0 <= i <= n
        invariant Valid() && items == old(items)
        invariant old(cursor).Some? ==> cursor == Some((old(cursor).value + i) % |items|)
        invariant old(cursor).None? ==> cursor == None && i == 0
      {
        match cursor {
          case None =>
            return Fail(NullReference);
          case Some(c) =>
            ModSucc(old(cursor).value + i, |items|);
            cursor := Some(StepRight(c, |items|));
        }
        i := i + 1;
      }
      return Pass;
    }

    /** `Insert(value, after)`: a new node right after (or before) the cursor
        becomes the cursor; removing it again gives back the old list. */
    method Insert(value: T, after: bool) returns (o: Outcome<ListError>)
      requires Valid()
      modifies this
      ensures Valid()
      ensures o.Fail? <==> old(items) == []
      ensures o.Fail? ==> o.error == ArgumentNull && items == old(items) && cursor == old(cursor)
      ensures o.Pass? ==> var c := old(cursor).value;
        && |items| == |old(items)| + 1
        && cursor == Some(if after then c + 1 else c)
        && items[cursor.value] == value
        && RemoveAt(items, cursor.value) == old(items)
    {
      match cursor {
        case None =>
          return Fail(ArgumentNull);
        case Some(c) =>
          var k := if after then c + 1 else c;
          items := items[..k] + [value] + items[k..];
          cursor := Some(k);
          assert RemoveAt(items, k) == old(items);
          return Pass;
      }
    }

    /** `Add(value)`: appends a node and makes it the cursor. */
    method Add(value: T)
      requires Valid()
      modifies this
      ensures Valid()
      ensures items == old(items) + [value]
      ensures cursor == Some(|items| - 1)
      ensures Current() == Success(value)
    {
      items := items + [value];
      cursor := Some(|items| - 1);
    }

    /** `TryRemove(value)`: removes the first node holding `value` and moves
        the cursor to that node's successor, else its predecessor. */
    method TryRemove(value: T) returns (removed: bool)
      requires Valid()
      modifies this
      ensures Valid()
      ensures removed <==> value in old(items)
      ensures !removed ==> unchanged(this)
      ensures removed ==> var k := IndexOf(old(items), value);
        && items == RemoveAt(old(items), k)
        && cursor == AfterRemoval(k, |old(items)|)
    {
      var k := IndexOf(items, value);
      if k < 0 {
        return false;
      }
      cursor := AfterRemoval(k, |items|);
      items := RemoveAt(items, k);
      return true;
    }

    /** `RemoveCurrent`: removes the cursor node and moves the cursor to its
        successor, else its predecessor; a null cursor throws. */
    method RemoveCurrent() returns (o: Outcome<ListError>)
      requires Valid()
      modifies this
      ensures Valid()
      ensures o.Fail? <==> old(items) == []
      ensures o.Fail? ==> o.error == NullReference && items == old(items) && cursor == old(cursor)
      ensures o.Pass? ==> var c := old(cursor).value;
        && items == RemoveAt(old(items), c)
        && cursor == AfterRemoval(c, |old(items)|)
    {
      match cursor {
        case None =>
          return Fail(NullReference);
        case Some(c) =>
          cursor := AfterRemoval(c, |items|);
          items := RemoveAt(items, c);
          return Pass;
      }
    }

    /** `ResetHead(toFirst)`: the cursor goes to the first (or last) node. */
    method ResetHead(toFirst: bool)
      requires Valid()
      modifies this
      ensures Valid()
      ensures items == old(items)
      ensures items != [] ==> GetIndex() == if toFirst then 0 else |items| - 1
    {
      if items == [] {
        cursor := None;
      } else {
        cursor := Some(if toFirst then 0 else |items| - 1);
      }
    }

    /** `SetHeadByIndex(idx)`: the cursor goes to node `idx`; an index outside
        the node array throws. */
    method SetHeadByIndex(idx: int) returns (o: Outcome<ListError>)
      requires Valid()
      modifies this
      ensures Valid()
      ensures items == old(items)
      ensures o.Pass? <==> 0 <= idx < |items|
      ensures o.Pass? ==> GetIndex() == idx && Current() == At(idx)
      ensures o.Fail? ==> o.error == IndexOutOfRange && cursor == old(cursor)
    {
      if 0 <= idx < |items| {
        cursor := Some(idx);
        return Pass;
      }
      return Fail(IndexOutOfRange);
    }

    /** `ToString`: the values in list order, each followed by a comma. */
    function ToString(show: T -> string): (r: string)
      reads this
      ensures (forall i :: 0 <= i < |items| ==> ',' !in show(items[i])) ==> CountOf(r, ',') == |items|
      ensures items != [] ==> |r| > 0 && r[|r| - 1] == ','
      ensures r == Render(items, show)
      ensures items != [] ==> r == show(items[0]) + "," + Render(items[1..], show)
    {
      var r := Render(items, show);
      assert items != [] ==> r == show(items[0]) + "," + Render(items[1..], show) by {
        if items != [] {
          RenderFront(items, show);
        }
      }
      assert items != [] ==> |r| > 0 && r[|r| - 1] == ',';
      assert (forall i :: 0 <= i < |items| ==> ',' !in show(items[i])) ==> CountOf(r, ',') == |items| by {
        if forall i :: 0 <= i < |items| ==> ',' !in show(items[i]) {
          RenderSeparators(items, show);
        }
      }
      r
    }
  }

  /** `MoveRight(k)` followed by `MoveLeft(k)` leaves the cursor where it was. */
  method MoveRightThenLeft<T(==)>(list: CircularList<T>, k: nat)
    requires list.Valid() && list.items != []
    modifies list
    ensures list.Valid()
    ensures list.items == old(list.items) && list.cursor == old(list.cursor)
  {
    var _ := list.MoveRight(k);
    var _ := list.MoveLeft(k);
    MoveRoundTrip(old(list.cursor).value, k, |list.items|);
  }
}
