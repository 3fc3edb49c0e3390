/** JSON values as `JSON.parse` builds them, equality that ignores the order of
    object keys, and the normal form in which every object has its keys sorted. */
module JsonValue {
  import opened Texts

  /** `Safe` is a safe integer; every other double is `Inexact`, because the
      printer refuses all of them alike. Negative zero is `Safe(0)`. */
  datatype Number = Safe(n: int) | Inexact

  const MAX_SAFE: int := 0x1F_FFFF_FFFF_FFFF

  predicate SafeInteger(n: int) {
    -MAX_SAFE <= n <= MAX_SAFE
  }

  datatype List<T> = Nil | Cons(head: T, tail: List<T>)

  datatype Entry<T> = Entry(key: Text, value: T)

  /** The members of an object are kept in insertion order. */
  datatype Json =
    | Null
    | Bool(b: bool)
    | Num(number: Number)
    | Str(s: Text)
    | Arr(items: List<Json>)
    | Obj(members: List<Entry<Json>>)

  // ----- association lists

  function Keys<T>(l: List<Entry<T>>): set<Text> {
    match l
    case Nil => {}
    case Cons(e, t) => {e.key} + Keys(t)
  }

  function Find<T>(l: List<Entry<T>>, key: Text): (r: Option<T>)
    ensures r.Some? <==> key in Keys(l)
  {
    match l
    case Nil => None
    case Cons(e, t) => if e.key == key then Some(e.value) else Find(t, key)
  }

  predicate Distinct<T>(l: List<Entry<T>>) {
    match l
    case Nil => true
    case Cons(e, t) => e.key !in Keys(t) && Distinct(t)
  }

  /** Assigning a property: an existing key keeps its place and takes the new value. */
  function Put<T>(l: List<Entry<T>>, key: Text, value: T): (r: List<Entry<T>>)
    ensures Keys(r) == Keys(l) + {key}
    ensures Distinct(l) ==> Distinct(r)
    ensures Find(r, key) == Some(value)
  {
    match l
    case Nil => Cons(Entry(key, value), Nil)
    case Cons(e, t) =>
      if e.key == key then Cons(Entry(key, value), t) else Cons(e, Put(t, key, value))
  }

  // ----- sorting by key

  predicate Sorted<T>(l: List<Entry<T>>) {
    match l
    case Nil => true
    case Cons(e, t) => (t.Nil? || Less(e.key, t.head.key)) && Sorted(t)
  }

  function Insert<T>(e: Entry<T>, l: List<Entry<T>>): (r: List<Entry<T>>)
    ensures Keys(r) == {e.key} + Keys(l)
  {
    match l
    case Nil => Cons(e, Nil)
    case Cons(h, t) => if Less(h.key, e.key) then Cons(h, Insert(e, t)) else Cons(e, l)
  }

  /** `Object.keys(value).sort()` with each key's value beside it. */
  function Sort<T>(l: List<Entry<T>>): (r: List<Entry<T>>)
    ensures Keys(r) == Keys(l)
  {
    match l
    case Nil => Nil
    case Cons(e, t) => Insert(e, Sort(t))
  }

  lemma {:induction false} InsertSorts<T>(e: Entry<T>, l: List<Entry<T>>)
    requires Sorted(l) && e.key !in Keys(l)
    ensures Sorted(Insert(e, l))
    ensures forall k :: Find(Insert(e, l), k) == if k == e.key then Some(e.value) else Find(l, k)
  {
    if l.Cons? {
      LessTotal(e.key, l.head.key);
      if Less(l.head.key, e.key) {
        InsertSorts(e, l.tail);
      }
    }
  }

  lemma {:induction false} SortSorts<T>(l: List<Entry<T>>)
    requires Distinct(l)
    ensures Sorted(Sort(l))
    ensures forall k :: Find(Sort(l), k) == Find(l, k)
  {
    if l.Cons? {
      SortSorts(l.tail);
      InsertSorts(l.head, Sort(l.tail));
    }
  }

  lemma {:induction false} HeadIsLeast<T>(l: List<Entry<T>>, k: Text)
    requires Sorted(l) && l.Cons? && k in Keys(l.tail)
    ensures Less(l.head.key, k)
  {
    if k != l.tail.head.key {
      HeadIsLeast(l.tail, k);
      LessTransitive(l.head.key, l.tail.head.key, k);
    }
  }

  lemma {:induction false} SortedIsDistinct<T>(l: List<Entry<T>>)
    requires Sorted(l)
    ensures Distinct(l)
  {
    if l.Cons? {
      SortedIsDistinct(l.tail);
      if l.head.key in Keys(l.tail) {
        HeadIsLeast(l, l.head.key);
        LessIrreflexive(l.head.key);
      }
    }
  }

  /** A sorted list is fixed by its lookups. */
  lemma {:induction false} SortedExtensional<T>(a: List<Entry<T>>, b: List<Entry<T>>)
    requires Sorted(a) && Sorted(b)
    requires forall k :: Find(a, k) == Find(b, k)
    ensures a == b
  {
    if a.Cons? {
      assert Find(b, a.head.key) == Find(a, a.head.key);
    }
    if b.Cons? {
      assert Find(a, b.head.key) == Find(b, b.head.key);
    }
    if a.Cons? {
      SameHead(a, b);
      SortedIsDistinct(a);
      SortedIsDistinct(b);
      forall k ensures Find(a.tail, k) == Find(b.tail, k) {
        assert Find(a, k) == Find(b, k);
      }
      SortedExtensional(a.tail, b.tail);
    }
  }

  lemma SameHead<T>(a: List<Entry<T>>, b: List<Entry<T>>)
    requires Sorted(a) && Sorted(b) && a.Cons? && b.Cons?
    requires forall k :: Find(a, k) == Find(b, k)
    ensures a.head == b.head
  {
    assert Find(a, a.head.key) == Find(b, a.head.key);
    assert Find(b, b.head.key) == Find(a, b.head.key);
    if a.head.key != b.head.key {
      HeadIsLeast(a, b.head.key);
      HeadIsLeast(b, a.head.key);
      LessTransitive(a.head.key, b.head.key, a.head.key);
      LessIrreflexive(a.head.key);
    }
  }

  // ----- values that JSON.parse can return

  /** Objects have distinct keys and numbers are safe integers or inexact. */
  predicate Valid(v: Json) {
    match v
    case Num(Safe(n)) => SafeInteger(n)
    case Arr(items) => ValidItems(items)
    case Obj(members) => Distinct(members) && ValidMembers(members)
    case _ => true
  }

  predicate ValidItems(l: List<Json>) {
    match l
    case Nil => true
    case Cons(v, t) => Valid(v) && ValidItems(t)
  }

  predicate ValidMembers(l: List<Entry<Json>>) {
    match l
    case Nil => true
    case Cons(e, t) => Valid(e.value) && ValidMembers(t)
  }

  // ----- equality that ignores key order

  predicate Same(a: Json, b: Json)
    decreases a
  {
    match a
    case Arr(x) => b.Arr? && SameItems(x, b.items)
    case Obj(x) => b.Obj? && Keys(x) == Keys(b.members) && SameMembers(x, b.members)
    case _ => a == b
  }

  predicate SameItems(x: List<Json>, y: List<Json>)
    decreases x
  {
    match x
    case Nil => y.Nil?
    case Cons(v, t) => y.Cons? && Same(v, y.head) && SameItems(t, y.tail)
  }

  /** Every member of x is found in y with the same value. */
  predicate SameMembers(x: List<Entry<Json>>, y: List<Entry<Json>>)
    decreases x
  {
    match x
    case Nil => true
    case Cons(e, t) => Find(y, e.key).Some? && Same(e.value, Find(y, e.key).value) && SameMembers(t, y)
  }

  // ----- normal form

  function Normal(v: Json): Json {
    match v
    case Arr(items) => Arr(NormalItems(items))
    case Obj(members) => Obj(Sort(NormalMembers(members)))
    case _ => v
  }

  function NormalItems(l: List<Json>): List<Json> {
    match l
    case Nil => Nil
    case Cons(v, t) => Cons(Normal(v), NormalItems(t))
  }

  function NormalMembers(l: List<Entry<Json>>): (r: List<Entry<Json>>)
    ensures Keys(r) == Keys(l)
    ensures Distinct(l) ==> Distinct(r)
  {
    match l
    case Nil => Nil
    case Cons(e, t) => Cons(Entry(e.key, Normal(e.value)), NormalMembers(t))
  }

  function NormalOption(v: Option<Json>): Option<Json> {
    if v.Some? then Some(Normal(v.value)) else None
  }

  lemma {:induction false} FindNormal(l: List<Entry<Json>>, k: Text)
    ensures Find(NormalMembers(l), k) == NormalOption(Find(l, k))
  {
    if l.Cons? {
      FindNormal(l.tail, k);
    }
  }

  lemma {:induction false} FindValid(l: List<Entry<Json>>, k: Text)
    requires ValidMembers(l)
    ensures Find(l, k).Some? ==> Valid(Find(l, k).value)
  {
    if l.Cons? {
      FindValid(l.tail, k);
    }
  }

  /** Looking a key up in the sorted object finds the normal form of the value. */
  lemma FindSorted(l: List<Entry<Json>>, k: Text)
    requires Distinct(l)
    ensures Find(Sort(NormalMembers(l)), k) == NormalOption(Find(l, k))
  {
    SortSorts(NormalMembers(l));
    FindNormal(l, k);
  }

  /** Two values are the same up to key order exactly when their normal forms are equal. */
  lemma {:induction false} SameIffNormal(a: Json, b: Json)
    requires Valid(a) && Valid(b)
    ensures Same(a, b) <==> Normal(a) == Normal(b)
    decreases a
  {
    match a
    case Arr(x) =>
      if b.Arr? {
        SameItemsIffNormal(x, b.items);
      }
    case Obj(x) =>
      if b.Obj? {
        var y := b.members;
        forall k ensures Find(Sort(NormalMembers(x)), k) == NormalOption(Find(x, k))
                 ensures Find(Sort(NormalMembers(y)), k) == NormalOption(Find(y, k)) {
          FindSorted(x, k);
          FindSorted(y, k);
        }
        if Same(a, b) {
          forall k ensures Find(Sort(NormalMembers(x)), k) == Find(Sort(NormalMembers(y)), k) {
            if k in Keys(x) {
              SameMemberNormal(x, y, k);
            }
          }
          SortSorts(NormalMembers(x));
          SortSorts(NormalMembers(y));
          SortedExtensional(Sort(NormalMembers(x)), Sort(NormalMembers(y)));
        }
        if Normal(a) == Normal(b) {
          assert Keys(x) == Keys(Sort(NormalMembers(x))) == Keys(y);
          forall k | k in Keys(x) ensures NormalOption(Find(x, k)) == NormalOption(Find(y, k)) {
            assert Find(Sort(NormalMembers(x)), k) == Find(Sort(NormalMembers(y)), k);
          }
          NormalMakesSame(x, y);
        }
      }
    case _ =>
  }

  lemma {:induction false} SameItemsIffNormal(x: List<Json>, y: List<Json>)
    requires ValidItems(x) && ValidItems(y)
    ensures SameItems(x, y) <==> NormalItems(x) == NormalItems(y)
    decreases x
  {
    if x.Cons? && y.Cons? {
      SameIffNormal(x.head, y.head);
      SameItemsIffNormal(x.tail, y.tail);
    }
  }

  lemma {:induction false} SameMemberNormal(x: List<Entry<Json>>, y: List<Entry<Json>>, k: Text)
    requires ValidMembers(x) && ValidMembers(y) && SameMembers(x, y) && k in Keys(x)
    ensures Find(y, k).Some? && Normal(Find(x, k).value) == Normal(Find(y, k).value)
    decreases x
  {
    if x.head.key == k {
      FindValid(y, k);
      SameIffNormal(x.head.value, Find(y, k).value);
    } else {
      SameMemberNormal(x.tail, y, k);
    }
  }

  lemma {:induction false} NormalMakesSame(x: List<Entry<Json>>, y: List<Entry<Json>>)
    requires Distinct(x) && ValidMembers(x) && ValidMembers(y) && Keys(x) <= Keys(y)
    requires forall k | k in Keys(x) :: NormalOption(Find(x, k)) == NormalOption(Find(y, k))
    ensures SameMembers(x, y)
    decreases x
  {
    if x.Cons? {
      var k := x.head.key;
      assert NormalOption(Find(x, k)) == NormalOption(Find(y, k));
      FindValid(y, k);
      SameIffNormal(x.head.value, Find(y, k).value);
      forall j | j in Keys(x.tail) ensures NormalOption(Find(x.tail, j)) == NormalOption(Find(y, j)) {
        assert j != k && j in Keys(x);
      }
      NormalMakesSame(x.tail, y);
    }
  }

  // ----- properties that sorting keeps

  lemma {:induction false} InsertValid(e: Entry<Json>, l: List<Entry<Json>>)
    ensures ValidMembers(Insert(e, l)) <==> Valid(e.value) && ValidMembers(l)
  {
    if l.Cons? {
      InsertValid(e, l.tail);
    }
  }

  lemma {:induction false} SortValid(l: List<Entry<Json>>)
    ensures ValidMembers(Sort(l)) <==> ValidMembers(l)
  {
    if l.Cons? {
      SortValid(l.tail);
      InsertValid(l.head, Sort(l.tail));
    }
  }

  lemma {:induction false} NormalValid(v: Json)
    requires Valid(v)
    ensures Valid(Normal(v))
  {
    match v
    case Arr(items) => NormalItemsValid(items);
    case Obj(members) =>
      NormalMembersValid(members);
      SortValid(NormalMembers(members));
      SortSorts(NormalMembers(members));
      SortedIsDistinct(Sort(NormalMembers(members)));
    case _ =>
  }

  lemma {:induction false} NormalItemsValid(l: List<Json>)
    requires ValidItems(l)
    ensures ValidItems(NormalItems(l))
  {
    if l.Cons? {
      NormalValid(l.head);
      NormalItemsValid(l.tail);
    }
  }

  lemma {:induction false} NormalMembersValid(l: List<Entry<Json>>)
    requires ValidMembers(l)
    ensures ValidMembers(NormalMembers(l))
  {
    if l.Cons? {
      NormalValid(l.head.value);
      NormalMembersValid(l.tail);
    }
  }
}
