/**
 The recursive value type that all formats share (QVariant), and its sorted map (QMap).
 */
module Values {
  import opened Words

  datatype Value =
    | Null
    | Bool(b: bool)
    | Char(c: byte)
    | Int(i: int32)
    | UInt(u: uint32)
    | LongLong(l: int64)
    | ULongLong(ul: uint64)
    | Double(bits: uint64)       // the 8-byte word; its numeric meaning plays no part
    | DateTime(msecs: int64)     // milliseconds since the epoch
    | Str(s: Bytes)
    | ByteArray(a: Bytes)
    | List(elements: seq<Value>)
    | Map(entries: seq<Entry>)

  datatype Entry = Entry(key: Bytes, value: Value)

  /** The order of the map's keys. */
  predicate Less(a: Bytes, b: Bytes) {
    if b == [] then false
    else if a == [] then true
    else a[0] < b[0] || (a[0] == b[0] && Less(a[1..], b[1..]))
  }

  lemma {:induction false} LessTotal(a: Bytes, b: Bytes)
    ensures a == b || Less(a, b) || Less(b, a)
  {
    if a != [] && b != [] && a[0] == b[0] {
      LessTotal(a[1..], b[1..]);
      assert a == [a[0]] + a[1..] && b == [b[0]] + b[1..];
    }
  }

  lemma {:induction false} LessTransitive(a: Bytes, b: Bytes, c: Bytes)
    requires Less(a, b) && Less(b, c)
    ensures Less(a, c)
  {
    if a != [] && a[0] == b[0] == c[0] {
      LessTransitive(a[1..], b[1..], c[1..]);
    }
  }

  lemma {:induction false} LessIrreflexive(a: Bytes)
    ensures !Less(a, a)
  {
    if a != [] {
      LessIrreflexive(a[1..]);
    }
  }

  /** A map is kept as its entries in ascending key order, the order of its iterators. */
  predicate Sorted(es: seq<Entry>) {
    forall i, j :: 0 <= i < j < |es| ==> Less(es[i].key, es[j].key)
  }

  /** Sets the value of a key. */
  function Insert(es: seq<Entry>, key: Bytes, value: Value): seq<Entry> {
    if es == [] then [Entry(key, value)]
    else if key == es[0].key then [Entry(key, value)] + es[1..]
    else if Less(key, es[0].key) then [Entry(key, value)] + es
    else [es[0]] + Insert(es[1..], key, value)
  }

  /** The contents of a map, without the order. */
  function AsMap(es: seq<Entry>): map<Bytes, Value> {
    if es == [] then map[] else AsMap(es[1..])[es[0].key := es[0].value]
  }

  lemma {:induction false} InsertedEntries(es: seq<Entry>, key: Bytes, value: Value)
    ensures forall e :: e in Insert(es, key, value) ==> e == Entry(key, value) || e in es
  {
    if es != [] && key != es[0].key && !Less(key, es[0].key) {
      InsertedEntries(es[1..], key, value);
    }
  }

  lemma SortedTail(es: seq<Entry>)
    requires Sorted(es) && es != []
    ensures Sorted(es[1..]) && forall e :: e in es[1..] ==> Less(es[0].key, e.key)
  {
  }

  lemma SortedCons(e: Entry, es: seq<Entry>)
    requires Sorted(es) && forall x :: x in es ==> Less(e.key, x.key)
    ensures Sorted([e] + es)
  {
  }

  /** Insertion keeps the order. */
  lemma {:induction false} InsertSorted(es: seq<Entry>, key: Bytes, value: Value)
    requires Sorted(es)
    ensures Sorted(Insert(es, key, value))
  {
    if es != [] {
      SortedTail(es);
      LessTotal(key, es[0].key);
      if key == es[0].key {
        SortedCons(Entry(key, value), es[1..]);
      } else if Less(key, es[0].key) {
        forall e | e in es
          ensures Less(key, e.key)
        {
          if e in es[1..] {
            LessTransitive(key, es[0].key, e.key);
          }
        }
        SortedCons(Entry(key, value), es);
      } else {
        InsertSorted(es[1..], key, value);
        InsertedEntries(es[1..], key, value);
        SortedCons(es[0], Insert(es[1..], key, value));
      }
    }
  }

  /** Insertion sets the key and leaves the others. */
  lemma {:induction false} InsertSets(es: seq<Entry>, key: Bytes, value: Value)
    requires Sorted(es)
    ensures AsMap(Insert(es, key, value)) == AsMap(es)[key := value]
  {
    if es != [] {
      SortedTail(es);
      if key == es[0].key {
        assert ([Entry(key, value)] + es[1..])[1..] == es[1..];
      } else if Less(key, es[0].key) {
        assert ([Entry(key, value)] + es)[1..] == es;
      } else {
        InsertSets(es[1..], key, value);
        assert ([es[0]] + Insert(es[1..], key, value))[1..] == Insert(es[1..], key, value);
      }
    }
  }

  /** A key above all others is appended. */
  lemma {:induction false} InsertLast(es: seq<Entry>, key: Bytes, value: Value)
    requires forall e :: e in es ==> Less(e.key, key)
    ensures Insert(es, key, value) == es + [Entry(key, value)]
  {
    if es != [] {
      assert es[0] in es;
      LessIrreflexive(key);
      if Less(key, es[0].key) {
        LessTransitive(key, es[0].key, key);
      }
      InsertLast(es[1..], key, value);
      assert es == [es[0]] + es[1..];
    }
  }

  // ---------- Entries in any order ----------

  /** A map after the entries have been set one after the other. */
  function InsertAll(es: seq<Entry>, more: seq<Entry>): seq<Entry>
    decreases more
  {
    if more == [] then es else InsertAll(Insert(es, more[0].key, more[0].value), more[1..])
  }

  /** The same without the order: of two values for one key the later one stays. */
  function SetAll(m: map<Bytes, Value>, more: seq<Entry>): map<Bytes, Value>
    decreases more
  {
    if more == [] then m else SetAll(m[more[0].key := more[0].value], more[1..])
  }

  /** Entries in any order, with keys repeated or not, make a map in key order that holds the last value of each key. */
  lemma {:induction false} InsertAllSets(es: seq<Entry>, more: seq<Entry>)
    requires Sorted(es)
    ensures Sorted(InsertAll(es, more)) && AsMap(InsertAll(es, more)) == SetAll(AsMap(es), more)
    decreases more
  {
    if more != [] {
      InsertSorted(es, more[0].key, more[0].value);
      InsertSets(es, more[0].key, more[0].value);
      InsertAllSets(Insert(es, more[0].key, more[0].value), more[1..]);
    }
  }

  /** A key holds the value of the last entry that has it. */
  lemma {:induction false} LastOneStays(m: map<Bytes, Value>, more: seq<Entry>, i: nat)
    requires i < |more| && forall j :: i < j < |more| ==> more[j].key != more[i].key
    ensures more[i].key in SetAll(m, more) && SetAll(m, more)[more[i].key] == more[i].value
    decreases more
  {
    var rest := more[1..];
    var m' := m[more[0].key := more[0].value];
    if i == 0 {
      OthersStay(m', rest, more[0].key);
    } else {
      LastOneStays(m', rest, i - 1);
    }
  }

  /** A key that no entry has is as it was. */
  lemma {:induction false} OthersStay(m: map<Bytes, Value>, more: seq<Entry>, key: Bytes)
    requires forall e :: e in more ==> e.key != key
    ensures key in SetAll(m, more) <==> key in m
    ensures key in m ==> SetAll(m, more)[key] == m[key]
    decreases more
  {
    if more != [] {
      OthersStay(m[more[0].key := more[0].value], more[1..], key);
    }
  }

  /** Above all keys of the map and in key order, the entries are simply appended. */
  lemma {:induction false} InsertAllLast(es: seq<Entry>, more: seq<Entry>)
    requires Sorted(more) && forall x, e :: x in es && e in more ==> Less(x.key, e.key)
    ensures InsertAll(es, more) == es + more
    decreases more
  {
    if more == [] {
      assert es + [] == es;
    } else {
      hide Less, Insert;
      assert more[0] in more;
      InsertLast(es, more[0].key, more[0].value);
      SortedTail(more);
      InsertAllLast(es + [more[0]], more[1..]);
      assert es + [more[0]] + more[1..] == es + more;
    }
  }

  /** Every map in the value is in key order, as any QMap is. */
  predicate Valid(v: Value) {
    match v
    case List(vs) => ValidAll(vs)
    case Map(es) => Sorted(es) && ValidEntries(es)
    case _ => true
  }

  predicate ValidAll(vs: seq<Value>) {
    vs == [] || (Valid(vs[0]) && ValidAll(vs[1..]))
  }

  predicate ValidEntries(es: seq<Entry>) {
    es == [] || (Valid(es[0].value) && ValidEntries(es[1..]))
  }
}
