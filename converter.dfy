/**
 * The value conversion protocol of the bridge (src/PythonBridge.cpp): QVariant to Python
 * object and back, as pure recursive functions, with the round trips they complete.
 */
module Converter {

  import opened Wrappers
  import opened Strings
  import opened Values

  /** variantToPythonObject: dispatch on the variant's type. */
  function ToPython(v: Variant): PyObject
    decreases v, 1
  {
    match v
    case VBool(b) => PyBool(b)
    case VInt(kind, x) => PyInt(ToLongLong(kind, x))
    case VFloat(_, f) => PyFloat(f)
    case VChar(c) => PyStr(Latin1CString(c))
    case VString(s) => PyUnicode(s)
    case VBytes(b) => PyByteArray(b)
    case VVoid => PyNone
    case VVoidStar => PyNone
    case VStringList(ss) => PyList(seq(|ss|, i requires 0 <= i < |ss| => PyUnicode(ss[i])))
    case VList(items) => ListToPythonList(items)
    case VMap(m) => MapToPythonDict(m, v)
    case VHash(m) => MapToPythonDict(m, v)
    case Invalid => PyNone
    case VOther(_) => PyNone
  }

  /**
   * The QChar case: QChar::toLatin1 (0 for characters above U+00FF) stored as a C string,
   * so that the NUL character gives the empty str.
   */
  function Latin1CString(c: char): seq<byte>
  {
    if 0 < c as int <= 0xFF then [c as int] else []
  }

  /** listToPythonList: a Python list holding each item converted, in order. */
  function ListToPythonList(items: seq<Variant>): PyObject
    decreases items, 0
  {
    PyList(seq(|items|, i requires 0 <= i < |items| => ToPython(items[i])))
  }

  /** listToPythonTuple: the argument tuple of a call. */
  function ListToPythonTuple(items: seq<Variant>): PyObject
  {
    PyTuple(seq(|items|, i requires 0 <= i < |items| => ToPython(items[i])))
  }

  /** The dictionary key built for a map key (the intended conversion: the key's full text). */
  function DictKey(key: string): PyObject
  {
    PyUnicode(key)
  }

  /**
   * mapToPythonDict: one entry per key, keys in QMap::keys() order, each key made a
   * unicode object and each value converted. `holder` is a variant the map's values are
   * part of (the map variant itself); it only serves the termination argument.
   */
  function MapToPythonDict(m: map<string, Variant>, ghost holder: Variant): PyObject
    requires forall k :: k in m ==> m[k] < holder
    decreases holder, 0
  {
    var keys := SortedKeys(m.Keys);
    PyDict(seq(|keys|, i requires 0 <= i < |keys| => (DictKey(keys[i]), ToPython(m[keys[i]]))))
  }

  /**
   * The key as the source builds it: PyUnicode_FromStringAndSize(key.toUtf8(), key.length())
   * decodes only the first QString::length() bytes of the UTF-8 text, that is as many
   * bytes as the key has UTF-16 code units. None: the cut splits a character and the
   * strict decoder fails.
   */
  function DictKeyAsWritten(key: string): Option<PyObject>
  {
    match DecodeUtf8Prefix(key, Utf16Length(key))
    case None => None
    case Some(text) => Some(PyUnicode(text))
  }

  /** pythonObjectToVariant on a non-null object. */
  function ToVariant(o: PyObject): Variant
    decreases o, 1
  {
    match o
    case PyNone => Invalid
    case PyBool(b) => VBool(b)
    case PyInt(i) => VInt(LongLong, WrapInt64(i))
    case PyLong(l) => VInt(LongLong, if InInt64(l) then l else -1)
    case PyFloat(f) => VFloat(Double, f)
    case PyStr(data) => VString(Latin1Decode(data))
    case PyUnicode(u) => VString(u)
    case PyByteArray(content) => VBytes(content)
    case PyTuple(es) => VList(seq(|es|, i requires 0 <= i < |es| => ToVariant(es[i])))
    case PyList(es) => VList(seq(|es|, i requires 0 <= i < |es| => ToVariant(es[i])))
    case PyDict(items) => VMap(DictToMap(items))
    case PyOpaque(_) => Invalid
  }

  /** pythonObjectToVariant on a possibly null pointer: null gives an invalid variant. */
  function PointerToVariant(p: Option<PyObject>): Variant
  {
    match p
    case None => Invalid
    case Some(o) => ToVariant(o)
  }

  /** The text a converted dictionary key contributes: pythonObjectToVariant(key).toString(). */
  function KeyString(k: PyObject): string
  {
    VariantToString(ToVariant(k))
  }

  /** The dictionary branch: entries inserted in PyDict_Keys order, so a later key string wins. */
  function DictToMap(items: seq<(PyObject, PyObject)>): map<string, Variant>
    decreases items, 0
  {
    if items == [] then map[]
    else
      var last := items[|items| - 1];
      assert last in items;
      assert last.0 < last && last.1 < last;
      DictToMap(items[..|items| - 1])[KeyString(last.0) := ToVariant(last.1)]
  }

  /**
   * Whether converting `o` meets a long outside the C long range. PyInt_AsLong then gives -1
   * and leaves OverflowError in the interpreter's error indicator, which the conversion never
   * checks. Elements, dictionary keys and dictionary values are all converted.
   */
  predicate Overflows(o: PyObject)
    decreases o, 1
  {
    match o
    case PyLong(l) => !InInt64(l)
    case PyTuple(es) => exists i :: 0 <= i < |es| && Overflows(es[i])
    case PyList(es) => exists i :: 0 <= i < |es| && Overflows(es[i])
    case PyDict(items) => EntriesOverflow(items)
    case _ => false
  }

  predicate EntriesOverflow(items: seq<(PyObject, PyObject)>)
    decreases items, 0
  {
    if items == [] then false
    else
      var last := items[|items| - 1];
      assert last in items;
      assert last.0 < last && last.1 < last;
      EntriesOverflow(items[..|items| - 1]) || Overflows(last.0) || Overflows(last.1)
  }

  /** The variants that come back unchanged from a trip through Python. */
  predicate RoundTrippable(v: Variant)
  {
    match v
    case VBool(_) => true
    case VInt(kind, x) => kind == LongLong && InInt64(x)
    case VFloat(kind, _) => kind == Double
    case VString(_) => true
    case VBytes(_) => true
    case VList(items) => forall i :: 0 <= i < |items| ==> RoundTrippable(items[i])
    case VMap(m) => forall k :: k in m ==> RoundTrippable(m[k])
    case _ => false
  }

  // ---------------------------------------------------------------------------------
  // Properties of the conversions

  /** bool, 64-bit integer, double, string, bytes and nested lists and maps of them come back unchanged. */
  lemma {:induction false} RoundTrip(v: Variant)
    requires RoundTrippable(v)
    ensures ToVariant(ToPython(v)) == v
    decreases v
  {
    match v
    case VList(items) =>
      var out := seq(|items|, i requires 0 <= i < |items| => ToPython(items[i]));
      assert ToPython(v) == PyList(out);
      var back := seq(|out|, i requires 0 <= i < |out| => ToVariant(out[i]));
      assert ToVariant(PyList(out)) == VList(back);
      forall i | 0 <= i < |items| ensures back[i] == items[i] {
        RoundTrip(items[i]);
      }
      assert back == items;
    case VMap(m) =>
      forall k | k in m ensures ToVariant(ToPython(m[k])) == m[k] {
        RoundTrip(m[k]);
      }
      MapRoundTrip(m);
    case _ =>
  }

  /** A map whose values come back unchanged comes back unchanged, keys included. */
  lemma MapRoundTrip(m: map<string, Variant>)
    requires forall k :: k in m ==> ToVariant(ToPython(m[k])) == m[k]
    ensures ToVariant(ToPython(VMap(m))) == VMap(m)
  {
    var keys := SortedKeys(m.Keys);
    var items := seq(|keys|, i requires 0 <= i < |keys| => (DictKey(keys[i]), ToPython(m[keys[i]])));
    assert ToPython(VMap(m)) == PyDict(items);
    DictOfKeysPrefix(m, keys, items, |keys|);
    assert items[..|keys|] == items;
    assert keys[..|keys|] == keys;
    MapOfAllKeys(m, keys);
    assert ToVariant(PyDict(items)) == VMap(DictToMap(items));
  }

  /** Collecting a map's values under a list of exactly its keys gives the map back. */
  lemma MapOfAllKeys<V>(m: map<string, V>, keys: seq<string>)
    requires forall k :: k in keys <==> k in m
    ensures (map k | k in keys :: m[k]) == m
  {
  }

  lemma {:induction false} DictOfKeysPrefix(m: map<string, Variant>, keys: seq<string>,
                                            items: seq<(PyObject, PyObject)>, n: nat)
    requires forall k :: k in m ==> ToVariant(ToPython(m[k])) == m[k]
    requires forall k :: k in keys ==> k in m
    requires |items| == |keys| && n <= |keys|
    requires forall i :: 0 <= i < |keys| ==> items[i] == (DictKey(keys[i]), ToPython(m[keys[i]]))
    ensures DictToMap(items[..n]) == map k | k in keys[..n] :: m[k]
  {
    if n > 0 {
      DictOfKeysPrefix(m, keys, items, n - 1);
      var k := keys[n - 1];
      assert items[..n][..n - 1] == items[..n - 1];
      assert items[..n][n - 1] == (PyUnicode(k), ToPython(m[k]));
      assert KeyString(PyUnicode(k)) == k;
      assert DictToMap(items[..n]) == DictToMap(items[..n - 1])[k := m[k]];
      assert keys[..n] == keys[..n - 1] + [k];
      var before := map j | j in keys[..n - 1] :: m[j];
      var after := map j | j in keys[..n] :: m[j];
      assert after == before[k := m[k]];
    }
  }

  /** Every integer kind travels as a Python int of toLongLong() and comes back a qint64. */
  lemma IntegersTravelAsLongLong(kind: IntKind, x: int)
    ensures ToPython(VInt(kind, x)) == PyInt(ToLongLong(kind, x))
    ensures ToVariant(ToPython(VInt(kind, x))) == VInt(LongLong, ToLongLong(kind, x))
    ensures InInt64(x) ==> ToVariant(ToPython(VInt(kind, x))) == VInt(LongLong, x)
  {
  }

  /** Unsupported and void host types become None, and None comes back invalid. */
  lemma UnsupportedBecomeNone(v: Variant)
    requires v.Invalid? || v.VVoid? || v.VVoidStar? || v.VOther?
    ensures ToPython(v) == PyNone
    ensures !ToVariant(ToPython(v)).IsValid()
  {
  }

  /** A null pointer, None and unsupported Python objects become an invalid variant. */
  lemma UnsupportedBecomeInvalid(p: Option<PyObject>)
    requires p.None? || p.value.PyNone? || p.value.PyOpaque?
    ensures !PointerToVariant(p).IsValid()
  {
  }

  /** listToPythonList and listToPythonTuple keep length and order. */
  lemma SequencesKeepOrder(items: seq<Variant>)
    ensures ListToPythonList(items).PyList? && ListToPythonTuple(items).PyTuple?
    ensures |ListToPythonList(items).elements| == |items| == |ListToPythonTuple(items).elems|
    ensures forall i :: 0 <= i < |items| ==>
      ListToPythonList(items).elements[i] == ToPython(items[i]) == ListToPythonTuple(items).elems[i]
  {
  }

  /** Tuples and lists both come back as a QVariantList of the converted elements, in order. */
  lemma TuplesAndListsBecomeLists(es: seq<PyObject>)
    ensures ToVariant(PyTuple(es)) == ToVariant(PyList(es))
    ensures ToVariant(PyList(es)).VList? && |ToVariant(PyList(es)).items| == |es|
    ensures forall i :: 0 <= i < |es| ==> ToVariant(PyList(es)).items[i] == ToVariant(es[i])
  {
  }

  /** Empty arguments and empty locals: the converters build exactly PyTuple_New(0) and PyDict_New(). */
  lemma EmptyContainers()
    ensures ListToPythonTuple([]) == PyTuple([])
    ensures MapToPythonDict(map[], VMap(map[])) == PyDict([])
  {
  }

  /** A QStringList goes out as a list of unicode objects and comes back as a list of strings. */
  lemma StringListComesBackAsList(ss: seq<string>)
    ensures ToPython(VStringList(ss)) == ListToPythonList(seq(|ss|, i requires 0 <= i < |ss| => VString(ss[i])))
    ensures ToVariant(ToPython(VStringList(ss))) == VList(seq(|ss|, i requires 0 <= i < |ss| => VString(ss[i])))
  {
  }

  /** A QVariantHash goes out as a dict and comes back as a QVariantMap with the same entries. */
  lemma HashComesBackAsMap(m: map<string, Variant>)
    requires forall k :: k in m ==> RoundTrippable(m[k])
    ensures ToVariant(ToPython(VHash(m))) == VMap(m)
  {
    assert RoundTrippable(VMap(m));
    RoundTrip(VMap(m));
  }

  /** A QChar goes out as a one-byte str (empty for NUL and non-Latin-1) and comes back a string. */
  lemma CharComesBackAsString(c: char)
    ensures ToVariant(ToPython(VChar(c))) == VString(if 0 < c as int <= 0xFF then [c] else [])
  {
  }

  /** Dictionary to map: the map's keys are exactly the converted keys' toString(). */
  lemma {:induction false} DictKeysAreKeyStrings(items: seq<(PyObject, PyObject)>, key: string)
    ensures key in DictToMap(items) <==> exists i :: 0 <= i < |items| && KeyString(items[i].0) == key
  {
    if items != [] {
      var n := |items| - 1;
      DictKeysAreKeyStrings(items[..n], key);
      if exists i :: 0 <= i < n && KeyString(items[..n][i].0) == key {
        var i :| 0 <= i < n && KeyString(items[..n][i].0) == key;
        assert items[i] == items[..n][i];
      }
      if i :| 0 <= i < |items| && KeyString(items[i].0) == key {
        if i < n { assert items[..n][i] == items[i]; }
      }
    }
  }

  /**
   * Dictionary to map: each key string holds the value of the last entry, in PyDict_Keys
   * order, whose key converts to it.
   */
  lemma {:induction false} DictLastEntryWins(items: seq<(PyObject, PyObject)>, i: nat)
    requires i < |items|
    requires forall j :: i < j < |items| ==> KeyString(items[j].0) != KeyString(items[i].0)
    ensures KeyString(items[i].0) in DictToMap(items)
    ensures DictToMap(items)[KeyString(items[i].0)] == ToVariant(items[i].1)
  {
    var n := |items| - 1;
    if i < n {
      forall j | i < j < n ensures KeyString(items[..n][j].0) != KeyString(items[..n][i].0) {
        assert items[..n][j] == items[j];
      }
      DictLastEntryWins(items[..n], i);
      assert items[..n][i] == items[i];
    }
  }

  /** A long outside the C long range comes back as -1 and is the one object that overflows alone. */
  lemma LongOutOfRange(l: int)
    ensures Overflows(PyLong(l)) <==> !InInt64(l)
    ensures !InInt64(l) ==> ToVariant(PyLong(l)) == VInt(LongLong, -1)
    ensures InInt64(l) ==> ToVariant(PyLong(l)) == VInt(LongLong, l)
  {
  }

  /** A dictionary overflows exactly when one of its keys or values does. */
  lemma {:induction false} EntriesOverflowSomewhere(items: seq<(PyObject, PyObject)>)
    ensures EntriesOverflow(items) <==>
              exists i :: 0 <= i < |items| && (Overflows(items[i].0) || Overflows(items[i].1))
  {
    if items != [] {
      var front := items[..|items| - 1];
      EntriesOverflowSomewhere(front);
      assert forall i :: 0 <= i < |front| ==> front[i] == items[i];
    }
  }

  /**
   * What the host sends never overflows: integers travel as Python ints, so a value converted
   * there and back leaves the error indicator alone.
   */
  lemma {:induction false} HostValuesNeverOverflow(v: Variant)
    ensures !Overflows(ToPython(v))
    decreases v
  {
    match v
    case VList(items) =>
      var out := seq(|items|, i requires 0 <= i < |items| => ToPython(items[i]));
      assert ToPython(v) == PyList(out);
      forall i | 0 <= i < |items| ensures !Overflows(out[i]) {
        HostValuesNeverOverflow(items[i]);
      }
    case VMap(m) =>
      HostMapNeverOverflows(m, v);
    case VHash(m) =>
      HostMapNeverOverflows(m, v);
    case _ =>
  }

  lemma {:induction false} HostMapNeverOverflows(m: map<string, Variant>, holder: Variant)
    requires holder == VMap(m) || holder == VHash(m)
    ensures !Overflows(MapToPythonDict(m, holder))
    decreases holder, 0
  {
    var keys := SortedKeys(m.Keys);
    var items := seq(|keys|, i requires 0 <= i < |keys| => (DictKey(keys[i]), ToPython(m[keys[i]])));
    assert MapToPythonDict(m, holder) == PyDict(items);
    forall i | 0 <= i < |items| ensures !Overflows(items[i].0) && !Overflows(items[i].1) {
      HostValuesNeverOverflow(m[keys[i]]);
    }
    EntriesOverflowSomewhere(items);
  }

  // ---------------------------------------------------------------------------------
  // The map-key conversion as written

  /** Example: "éa" has 2 UTF-16 code units but 3 UTF-8 bytes, so its key is cut to "é". */
  lemma AsWrittenKeyTruncates()
    ensures DictKeyAsWritten("éa") == Some(PyUnicode("é"))
    ensures KeyString(DictKeyAsWritten("éa").value) != "éa"
    ensures DictKeyAsWritten("é") == None
  {
    assert Utf16Length("éa") == 2 by {
      assert "éa"[1..] == "a";
      assert "a"[1..] == [];
    }
    assert Utf16Length("é") == 1 by { assert "é"[1..] == []; }
    assert DecodeUtf8Prefix("éa", 2) == Some("é") by {
      assert Utf8Width('é') == 2;
      assert "éa"[1..] == "a";
      assert DecodeUtf8Prefix("a", 0) == Some([]);
      assert ['é'] + [] == "é";
    }
    assert DecodeUtf8Prefix("é", 1) == None by {
      assert Utf8Width('é') == 2;
    }
  }

  /** The key as written is exact when every character is ASCII (one byte, one code unit). */
  lemma {:induction false} AsWrittenKeyExactForAscii(key: string)
    requires forall i :: 0 <= i < |key| ==> key[i] as int < 0x80
    ensures DictKeyAsWritten(key) == Some(DictKey(key))
  {
    AsciiPrefixDecodes(key);
  }

  lemma {:induction false} AsciiPrefixDecodes(key: string)
    requires forall i :: 0 <= i < |key| ==> key[i] as int < 0x80
    ensures Utf16Length(key) == |key|
    ensures DecodeUtf8Prefix(key, |key|) == Some(key)
  {
    if key != [] {
      AsciiPrefixDecodes(key[1..]);
      assert [key[0]] + key[1..] == key;
    }
  }
}
