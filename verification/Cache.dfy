/** Proxy/Cache.cc, Proxy/Cache.h and the cache functions of Proxy/Proxy.cc: a doubly linked list between two
    sentinels, newest object first, changed in place. */
module Cache {
  import opened Integers

  const MAX_CACHE_SIZE: int := 1049000
  const MAX_OBJECT_SIZE: int := 102400
  const SENTINEL: char := '@'

  // ---------------------------------------------------------------- what the list holds

  /** An object's URI and body length. */
  datatype Item = Item(uri: string, bodyLen: int)

  /** The list from the front, and the counter `CacheSize`, which evictions do not lower. */
  datatype State = State(items: seq<Item>, size: int)

  const EMPTY := State([], 0)

  function Insert(s: State, x: Item): State {
    var total := Int32(s.size + x.bodyLen);
    State([x] + (if total > MAX_CACHE_SIZE then [] else s.items), total)
  }

  function InsertTo(xs: seq<Item>, n: nat): State
    requires n <= |xs|
  {
    if n == 0 then EMPTY else Insert(InsertTo(xs, n - 1), xs[n - 1])
  }

  function TotalTo(xs: seq<Item>, n: nat): int
    requires n <= |xs|
  {
    if n == 0 then 0 else TotalTo(xs, n - 1) + xs[n - 1].bodyLen
  }

  /** Elements `m` to `n`, the last one first. */
  function Newest(xs: seq<Item>, m: nat, n: nat): (r: seq<Item>)
    requires m <= n <= |xs|
    ensures |r| == n - m && forall i | 0 <= i < n - m :: r[i] == xs[n - 1 - i]
    decreases n
  {
    if n == m then [] else [xs[n - 1]] + Newest(xs, m, n - 1)
  }

  function Bytes(items: seq<Item>): int {
    if |items| == 0 then 0 else items[0].bodyLen + Bytes(items[1..])
  }

  ghost predicate Admissible(xs: seq<Item>) {
    forall x | x in xs :: 0 <= x.bodyLen <= MAX_OBJECT_SIZE
  }

  /** The list holds the last objects written, the newest first. */
  lemma {:induction false} NewestFirst(xs: seq<Item>, n: nat) returns (m: nat)
    requires n <= |xs|
    ensures m <= n && InsertTo(xs, n).items == Newest(xs, m, n)
    ensures n > 0 && InsertTo(xs, n).size > MAX_CACHE_SIZE ==> m == n - 1
  {
    if n == 0 {
      m := 0;
    } else if InsertTo(xs, n).size > MAX_CACHE_SIZE {
      m := n - 1;
    } else {
      m := NewestFirst(xs, n - 1);
    }
  }

  lemma {:induction false} TotalGrows(xs: seq<Item>, m: nat, n: nat)
    requires m <= n <= |xs| && Admissible(xs)
    ensures 0 <= TotalTo(xs, m) <= TotalTo(xs, n)
  {
    if n > 0 {
      assert xs[n - 1] in xs;
      TotalGrows(xs, if m < n then m else n - 1, n - 1);
    }
  }

  lemma InsertPlain(s: State, x: Item)
    requires 0 <= s.size + x.bodyLen <= INT_MAX
    ensures Insert(s, x)
            == State([x] + (if s.size + x.bodyLen > MAX_CACHE_SIZE then [] else s.items), s.size + x.bodyLen)
  {
  }

  /** While the bodies ever written fit an `int`, the counter is their total; the cache holds everything while
      they fit the limit, and from then on, since the counter only grows, the last object alone. */
  lemma {:induction false} HoldsAllOrTheLast(xs: seq<Item>, n: nat)
    requires n <= |xs| && Admissible(xs) && TotalTo(xs, n) <= INT_MAX
    ensures InsertTo(xs, n).size == TotalTo(xs, n) >= 0
    ensures InsertTo(xs, n).items
            == if n == 0 || TotalTo(xs, n) <= MAX_CACHE_SIZE then Newest(xs, 0, n) else [xs[n - 1]]
  {
    if n > 0 {
      TotalGrows(xs, n - 1, n);
      HoldsAllOrTheLast(xs, n - 1);
      InsertPlain(InsertTo(xs, n - 1), xs[n - 1]);
    }
  }

  lemma {:induction false} NewestBytes(xs: seq<Item>, m: nat, n: nat)
    requires m <= n <= |xs|
    ensures Bytes(Newest(xs, m, n)) == TotalTo(xs, n) - TotalTo(xs, m)
    decreases n
  {
    if n > m {
      NewestBytes(xs, m, n - 1);
      assert Newest(xs, m, n)[1..] == Newest(xs, m, n - 1);
    }
  }

  lemma WrappedSum(t: int, x: int)
    requires INT_MAX < t + x < TWO_TO_THE_32
    ensures Int32(t + x) == t + x - TWO_TO_THE_32
    ensures Int32(t - TWO_TO_THE_32 + x) == t + x - TWO_TO_THE_32
  {
  }

  lemma InsertWrapped(s: State, x: Item, t: int)
    requires INT_MAX < t + x.bodyLen < TWO_TO_THE_32 && (s.size == t || s.size == t - TWO_TO_THE_32)
    ensures Insert(s, x) == State([x] + s.items, t + x.bodyLen - TWO_TO_THE_32)
  {
    WrappedSum(t, x.bodyLen);
  }

  /** Beyond that the counter is negative, nothing is evicted, and the list grows behind the last object that
      was written before. */
  lemma {:induction false} GrowsAfterTheWrap(xs: seq<Item>, m: nat, n: nat)
    requires 0 < m < n <= |xs| && Admissible(xs)
    requires MAX_CACHE_SIZE < TotalTo(xs, m) <= INT_MAX < TotalTo(xs, m + 1)
    requires TotalTo(xs, n) < TWO_TO_THE_32
    ensures InsertTo(xs, n) == State(Newest(xs, m - 1, n), TotalTo(xs, n) - TWO_TO_THE_32)
  {
    TotalGrows(xs, m + 1, n);
    TotalGrows(xs, n - 1, n);
    if n == m + 1 {
      HoldsAllOrTheLast(xs, m);
      assert Newest(xs, m - 1, m) == [xs[m - 1]];
    } else {
      TotalGrows(xs, m + 1, n - 1);
      GrowsAfterTheWrap(xs, m, n - 1);
    }
    InsertWrapped(InsertTo(xs, n - 1), xs[n - 1], TotalTo(xs, n - 1));
  }

  /** The last number of objects whose bodies fit an `int`. */
  lemma {:induction false} LastThatFits(xs: seq<Item>, n: nat) returns (m: nat)
    requires n <= |xs| && TotalTo(xs, n) > INT_MAX
    ensures m < n && TotalTo(xs, m) <= INT_MAX < TotalTo(xs, m + 1)
  {
    if TotalTo(xs, n - 1) <= INT_MAX {
      m := n - 1;
    } else {
      m := LastThatFits(xs, n - 1);
    }
  }

  /** The largest total up to which the bound holds: the wrap must not keep more than one object too many. */
  const SAFE_TOTAL: int := INT_MAX + MAX_CACHE_SIZE - 2 * MAX_OBJECT_SIZE + 1

  /** The cached body bytes stay within the limit while the bodies ever written stay within `SAFE_TOTAL`. */
  lemma CachedBytesAreBounded(xs: seq<Item>)
    requires Admissible(xs) && TotalTo(xs, |xs|) <= SAFE_TOTAL
    ensures 0 <= Bytes(InsertTo(xs, |xs|).items) <= MAX_CACHE_SIZE
  {
    if TotalTo(xs, |xs|) <= INT_MAX {
      BoundedBeforeTheWrap(xs, |xs|);
    } else {
      BoundedAfterTheWrap(xs, |xs|);
    }
  }

  lemma BoundedBeforeTheWrap(xs: seq<Item>, n: nat)
    requires n <= |xs| && Admissible(xs) && TotalTo(xs, n) <= INT_MAX
    ensures 0 <= Bytes(InsertTo(xs, n).items) <= MAX_CACHE_SIZE
  {
    HoldsAllOrTheLast(xs, n);
    NewestBytes(xs, 0, n);
    if n > 0 {
      assert xs[n - 1] in xs;
      assert Bytes([xs[n - 1]]) == xs[n - 1].bodyLen;
    }
  }

  lemma BoundedAfterTheWrap(xs: seq<Item>, n: nat)
    requires n <= |xs| && Admissible(xs) && INT_MAX < TotalTo(xs, n) <= SAFE_TOTAL
    ensures 0 <= Bytes(InsertTo(xs, n).items) <= MAX_CACHE_SIZE
  {
    var m := LastThatFits(xs, n);
    assert xs[m] in xs && TotalTo(xs, m + 1) == TotalTo(xs, m) + xs[m].bodyLen;
    assert m > 0;
    assert xs[m - 1] in xs && TotalTo(xs, m) == TotalTo(xs, m - 1) + xs[m - 1].bodyLen;
    GrowsAfterTheWrap(xs, m, n);
    NewestBytes(xs, m - 1, n);
    TotalGrows(xs, m - 1, n);
  }

  /** A history whose total is the next one: it fills the counter to less than an object below the largest
      `int` and then goes on. */
  ghost function Overfull(): (xs: seq<Item>)
    ensures |xs| == 20981
  {
    [Item("", 53248)] + seq(20979, _ => Item("", MAX_OBJECT_SIZE)) + [Item("", 25001)]
  }

  lemma {:induction false} OverfullTotal(n: nat)
    requires 0 < n <= 20980
    ensures TotalTo(Overfull(), n) == 53248 + (n - 1) * MAX_OBJECT_SIZE
  {
    if n > 1 {
      OverfullTotal(n - 1);
      assert Overfull()[n - 1] == Item("", MAX_OBJECT_SIZE);
    } else {
      assert TotalTo(Overfull(), 0) == 0;
    }
  }

  lemma OverfullExceeds()
    ensures Admissible(Overfull()) && TotalTo(Overfull(), |Overfull()|) == SAFE_TOTAL + 1
    ensures Bytes(InsertTo(Overfull(), |Overfull()|).items) == MAX_CACHE_SIZE + 1
  {
    var xs, n, m := Overfull(), 20981, 20971;
    OverfullTotal(m - 1);
    OverfullTotal(m);
    OverfullTotal(m + 1);
    OverfullTotal(n - 1);
    assert xs[n - 1] == Item("", 25001);
    GrowsAfterTheWrap(xs, m, n);
    NewestBytes(xs, m - 1, n);
  }

  /** So `SAFE_TOTAL` is exact: all histories up to a total keep the bound if and only if it is not larger. */
  lemma BoundHoldsExactly(total: int)
    ensures (forall xs | Admissible(xs) && TotalTo(xs, |xs|) <= total ::
               Bytes(InsertTo(xs, |xs|).items) <= MAX_CACHE_SIZE)
            <==> total <= SAFE_TOTAL
  {
    if total <= SAFE_TOTAL {
      forall xs: seq<Item> | Admissible(xs) && TotalTo(xs, |xs|) <= total
        ensures Bytes(InsertTo(xs, |xs|).items) <= MAX_CACHE_SIZE
      {
        CachedBytesAreBounded(xs);
      }
    } else {
      OverfullExceeds();
    }
  }

  /** `strcmp` sees a string up to its first NUL. */
  function CString(s: string): (c: string)
    ensures '\0' !in c && c <= s && (|c| < |s| ==> s[|c|] == '\0')
  {
    if |s| == 0 || s[0] == '\0' then "" else [s[0]] + CString(s[1..])
  }

  /** The position of the first match from the front, or the length of the list. */
  function FirstMatch(items: seq<Item>, uri: string): (k: nat)
    ensures k <= |items|
    ensures forall i | 0 <= i < k :: CString(items[i].uri) != CString(uri)
    ensures k < |items| ==> CString(items[k].uri) == CString(uri)
  {
    if |items| == 0 || CString(items[0].uri) == CString(uri) then 0 else 1 + FirstMatch(items[1..], uri)
  }

  /** A lookup finds the object of that URI which was written last, if it has not been evicted. */
  lemma LookupFindsTheNewest(xs: seq<Item>, uri: string, k: nat)
    requires k == FirstMatch(InsertTo(xs, |xs|).items, uri) < |InsertTo(xs, |xs|).items|
    ensures k < |xs| && CString(xs[|xs| - 1 - k].uri) == CString(uri)
    ensures InsertTo(xs, |xs|).items[k] == xs[|xs| - 1 - k]
    ensures forall i | |xs| - 1 - k < i < |xs| :: CString(xs[i].uri) != CString(uri)
  {
    hide InsertTo, CString;
    var m := NewestFirst(xs, |xs|);
    var items := InsertTo(xs, |xs|).items;
    forall i | |xs| - 1 - k < i < |xs|
      ensures CString(xs[i].uri) != CString(uri)
    {
      assert xs[i] == items[|xs| - 1 - i];
    }
  }

  /** While all bodies fit, a lookup fails only for a URI that was never written. */
  lemma LookupMissesNothing(xs: seq<Item>, uri: string)
    requires Admissible(xs) && TotalTo(xs, |xs|) <= MAX_CACHE_SIZE
    ensures var items := InsertTo(xs, |xs|).items;
            FirstMatch(items, uri) == |items| <==> forall x | x in xs :: CString(x.uri) != CString(uri)
  {
    HoldsAllOrTheLast(xs, |xs|);
    var items := InsertTo(xs, |xs|).items;
    var k := FirstMatch(items, uri);
    if k < |items| {
      assert items[k] in xs;
    } else {
      forall i | 0 <= i < |xs|
        ensures CString(xs[i].uri) != CString(uri)
      {
        assert xs[i] == items[|xs| - 1 - i];
      }
    }
  }

  // ---------------------------------------------------------------- the list

  class Obj {
    const flag: char
    const uri: string
    const respBodyLen: int
    var prev: Obj?
    var next: Obj?

    constructor (flag: char, uri: string, respBodyLen: int)
      ensures this.flag == flag && this.uri == uri && this.respBodyLen == respBodyLen
      ensures prev == null && next == null
    {
      this.flag, this.uri, this.respBodyLen, prev, next := flag, uri, respBodyLen, null, null;
    }
  }

  ghost function ItemsOf(objs: seq<Obj>): seq<Item> {
    seq(|objs|, i requires 0 <= i < |objs| => Item(objs[i].uri, objs[i].respBodyLen))
  }

  /** Neighbours point at each other, and no object occurs twice. */
  ghost predicate Linked(spine: seq<Obj>)
    reads spine
  {
    && (forall i | 0 <= i < |spine| - 1 :: spine[i].next == spine[i + 1] && spine[i + 1].prev == spine[i])
    && (forall i, j | 0 <= i < j < |spine| :: spine[i] != spine[j])
  }

  class Cache {
    var head: Obj
    var tail: Obj
    var cacheSize: int

    /** The objects between the sentinels. */
    ghost var objs: seq<Obj>

    ghost function Spine(): seq<Obj>
      reads this
    {
      [head] + objs + [tail]
    }

    ghost predicate Valid()
      reads this, head, tail, objs
    {
      && Linked(Spine())
      && head.flag == SENTINEL && tail.flag == SENTINEL && head.prev == null && tail.next == null
      && (forall o | o in objs :: o.flag != SENTINEL)
    }

    ghost function View(): State
      reads this
    {
      State(ItemsOf(objs), cacheSize)
    }

    /** `initializeCache`. */
    constructor ()
      ensures Valid() && View() == EMPTY
      ensures fresh(head) && fresh(tail)
    {
      head := new Obj(SENTINEL, "", 0);
      tail := new Obj(SENTINEL, "", 0);
      cacheSize, objs := 0, [];
      new;
      head.next := tail;
      tail.prev := head;
    }

    /** The body of the loop in `writeToCache`. */
    method EvictLast()
      requires Valid() && |objs| > 0
      modifies this`objs, head, tail, objs
      ensures Valid() && objs == old(objs[..|objs| - 1])
    {
      ghost var spine, n := Spine(), |objs|;
      var last := tail.prev;
      assert spine[n] == last && spine[n + 1] == tail && last.next == tail;
      assert spine[n - 1] == last.prev;
      last.next.prev := last.prev;
      last.prev.next := last.next;
      last.next := null;
      last.prev := null;
      objs := objs[..n - 1];
      assert Spine() == spine[..n] + [tail];
    }

    lemma FirstIsTail()
      requires Valid()
      ensures head.next == Spine()[1]
      ensures head.next == tail <==> |objs| == 0
      ensures head.next == tail || head.next in objs
    {
      assert Spine()[0] == head && Spine()[|objs| + 1] == tail;
    }

    /** `writeToCache`. */
    method WriteToCache(obj: Obj)
      requires Valid() && obj !in Spine() && obj.flag != SENTINEL
      modifies this, head, tail, objs, obj
      ensures Valid() && View() == Insert(old(View()), Item(obj.uri, obj.respBodyLen))
      ensures objs == [obj] + old(if Int32(obj.respBodyLen + cacheSize) > MAX_CACHE_SIZE then [] else objs)
    {
      FirstIsTail();
      while Int32(obj.respBodyLen + cacheSize) > MAX_CACHE_SIZE && head.next != tail
        invariant Valid() && (head.next == tail <==> |objs| == 0)
        invariant head == old(head) && tail == old(tail) && cacheSize == old(cacheSize)
        invariant |objs| <= |old(objs)| && objs == old(objs)[..|objs|]
        invariant Int32(obj.respBodyLen + cacheSize) <= MAX_CACHE_SIZE ==> objs == old(objs)
        decreases |objs|
      {
        EvictLast();
        FirstIsTail();
      }
      FirstIsTail();
      assert forall o | o in objs :: o in old(objs);
      PushFront(obj);
      cacheSize := Int32(cacheSize + obj.respBodyLen);
    }

    /** The end of `writeToCache`: the object goes behind the head. */
    method PushFront(obj: Obj)
      requires Valid() && obj !in Spine() && obj.flag != SENTINEL
      modifies this`objs, head, head.next, obj
      ensures Valid() && objs == [obj] + old(objs)
    {
      ghost var spine := Spine();
      assert spine[0] == head && head.next == spine[1];
      obj.next := head.next;
      obj.prev := head;
      head.next.prev := obj;
      head.next := obj;
      objs := [obj] + objs;
      assert Spine() == [head, obj] + spine[1..];
    }

    /** The walk of `readItem`. */
    method ReadItem(targetURI: string) returns (item: Obj?)
      requires Valid()
      ensures var k := FirstMatch(View().items, targetURI);
              item == if k < |objs| then objs[k] else null
    {
      ghost var i := 0;
      var cur := head.next;
      FirstIsTail();
      while cur.flag != SENTINEL
        invariant 0 <= i <= |objs| && cur == Spine()[i + 1]
        invariant FirstMatch(View().items, targetURI) == i + FirstMatch(View().items[i..], targetURI)
        decreases |objs| - i
      {
        assert Spine()[i + 1] == objs[i];
        if CString(targetURI) == CString(cur.uri) {
          return cur;
        }
        assert View().items[i..][1..] == View().items[i + 1..];
        cur := cur.next;
        i := i + 1;
        assert Spine()[i + 1] == cur;
      }
      assert cur != null;
      return null;
    }
  }
}
