/** What the converters and layouts share: the value kinds of a GELF field map,
    message truncation, the `key:value` option syntax, the loop that renames
    MDC entries into fields, and the loop that lays static fields over a map.
    A `HashMap`'s key order is not specified, so each loop takes the order in
    which it visits the keys as an argument. */
module GelfFields {
  import opened JavaLang

  /** A value put into the field map handed to the JSON serialiser. */
  datatype Value =
    | Text(s: string)
    | Number(n: int)
    /** A time stamp in milliseconds, sent as the decimal `millis / 1000.0`. */
    | Seconds(millis: int)
    /** A `null` put into the map. */
    | Null

  type Message = map<string, Value>

  // ---------------------------------------------------------------------
  // truncateToShortMessage / truncateToLongMessage

  /** `s` cut to at most `n` characters. */
  function Truncate(s: string, n: nat): (r: string)
    ensures |r| == (if |s| <= n then |s| else n)
    ensures r == s[..|r|]
  {
    if |s| > n then s[..n] else s
  }

  /** A message that fits is kept whole; truncating twice is truncating once. */
  lemma TruncateProperties(s: string, n: nat)
    ensures |s| <= n <==> Truncate(s, n) == s
    ensures Truncate(Truncate(s, n), n) == Truncate(s, n)
    ensures forall m: nat :: m >= n ==> Truncate(Truncate(s, m), n) == Truncate(s, n)
  {
  }

  /** The truncation for a configured `int` length: a negative length makes
      `substring` throw whatever the text, which is `None`. */
  function TruncateTo(s: string, n: int): (r: Option<string>)
    ensures r.None? <==> n < 0
    ensures r.Some? ==> |r.value| <= n && r.value <= s && (|s| <= n ==> r.value == s)
  {
    if n < 0 then None else Some(Truncate(s, n))
  }

  // ---------------------------------------------------------------------
  // The `key:value` syntax of addAdditionalField and its siblings

  /** `keyValue.split(":")` must yield exactly two parts; `None` is the
      `IllegalArgumentException`. */
  function ParseKeyValue(keyValue: string): (r: Option<(string, string)>)
  {
    var parts := SplitColon(keyValue);
    if |parts| == 2 then Some((parts[0], parts[1])) else None
  }

  /** An accepted option has a colon-free key and a non-empty colon-free value. */
  lemma ParseKeyValueSound(keyValue: string)
    requires ParseKeyValue(keyValue).Some?
    ensures var (k, v) := ParseKeyValue(keyValue).value;
      ':' !in k && ':' !in v && v != [] && ':' in keyValue
  {
    var parts := SplitColon(keyValue);
    if ':' in keyValue {
      assert parts == Pieces(keyValue)[..2];
      assert parts[0] == Pieces(keyValue)[0] && parts[1] == Pieces(keyValue)[1];
    }
  }

  /** The round trip: a colon-free key and a non-empty colon-free value joined by a
      colon parse back to themselves. */
  lemma ParseKeyValueJoin(k: string, v: string)
    requires ':' !in k && ':' !in v && v != []
    ensures ParseKeyValue(k + ":" + v) == Some((k, v))
  {
    PiecesJoin(k, v);
    PiecesNoColon(v);
    assert (k + ":" + v)[|k|] == ':';
    assert Pieces(k + ":" + v) == [k, v];
  }

  /** Without a colon there is one part, so the option is rejected. */
  lemma ParseKeyValueNoColon(s: string)
    requires ':' !in s
    ensures ParseKeyValue(s) == None
  {
  }

  /** `split` drops trailing empty strings, so a key with a colon but no value
      (`"a:"`) is rejected. */
  lemma ParseKeyValueMissingValue(k: string)
    requires ':' !in k
    ensures ParseKeyValue(k + ":") == None
  {
    assert k + ":" == k + ":" + "";
    PiecesJoin(k, "");
    PiecesNoColon("");
    assert (k + ":")[|k|] == ':';
    var p := Pieces(k + ":");
    assert p == [k, ""];
    if k == [] {
      assert StripTrailingEmpty(p) == StripTrailingEmpty([k]) == [];
    } else {
      assert p[..1] == [k];
      assert StripTrailingEmpty(p) == [k];
    }
  }

  /** ... while trailing colons after a value are ignored: `"a:b:"` is accepted as
      `a` to `b`. */
  lemma ParseKeyValueTrailingColon(k: string, v: string)
    requires ':' !in k && ':' !in v && v != []
    ensures ParseKeyValue(k + ":" + v + ":") == Some((k, v))
  {
    assert k + ":" + v + ":" == k + [':'] + (v + [':'] + "");
    PiecesJoin(k, v + [':'] + "");
    PiecesJoin(v, "");
    PiecesNoColon("");
    assert (k + ":" + v + ":")[|k|] == ':';
    var p := Pieces(k + ":" + v + ":");
    assert p == [k, v, ""];
    assert p[..2] == [k, v];
    assert StripTrailingEmpty(p) == [k, v];
  }

  /** A second colon between non-empty parts makes three parts: rejected. */
  lemma ParseKeyValueThreeParts(k: string, v: string, w: string)
    requires ':' !in k && ':' !in v && ':' !in w && w != []
    ensures ParseKeyValue(k + ":" + v + ":" + w) == None
  {
    assert k + ":" + v + ":" + w == k + [':'] + (v + [':'] + w);
    PiecesJoin(k, v + [':'] + w);
    PiecesJoin(v, w);
    PiecesNoColon(w);
    assert (k + ":" + v + ":" + w)[|k|] == ':';
    assert Pieces(k + ":" + v + ":" + w) == [k, v, w];
  }

  // ---------------------------------------------------------------------
  // The MDC loop of additionalFields

  /** `order` lists the keys of `fields` once each: a `keySet` iteration order. */
  ghost predicate IsKeyOrder(order: seq<string>, fields: map<string, string>)
  {
    (forall i, j :: 0 <= i < j < |order| ==> order[i] != order[j])
    && (forall i :: 0 <= i < |order| ==> order[i] in fields)
    && (forall k :: k in fields ==> k in order)
  }

  /** The map after the loop has visited `order`: for each MDC key that has a
      value, the value is put under the configured field name. */
  function MdcFields(m: Message, fields: map<string, string>, mdc: map<string, string>, order: seq<string>): Message
    decreases |order|
  {
    if order == [] then m
    else
      var key := order[|order| - 1];
      var r := MdcFields(m, fields, mdc, order[..|order| - 1]);
      if key in mdc && key in fields then r[fields[key] := Text(mdc[key])] else r
  }

  /** The loop: skipped when the event has no MDC map at all. */
  method AddMdcFields(m: Message, fields: map<string, string>, mdc: Option<map<string, string>>, order: seq<string>)
      returns (r: Message)
    requires IsKeyOrder(order, fields)
    ensures r == if mdc.None? then m else MdcFields(m, fields, mdc.value, order)
  {
    r := m;
    if mdc == None {
      return;
    }
    var i := 0;
    while i < |order|
      invariant 0 <= i <= |order|
      invariant r == MdcFields(m, fields, mdc.value, order[..i])
    {
      var key := order[i];
      assert order[..i + 1][..i] == order[..i];
      if key in mdc.value {
        r := r[fields[key] := Text(mdc.value[key])];
      }
      i := i + 1;
    }
    assert order[..i] == order;
  }

  /** Distinct MDC keys are given distinct field names. */
  ghost predicate Injective(fields: map<string, string>)
  {
    forall k, k' :: k in fields && k' in fields && k != k' ==> fields[k] != fields[k']
  }

  /** With distinct field names, the field of every MDC key that has a value holds
      that value, whatever the order. */
  lemma {:induction false} MdcFieldsHit(m: Message, fields: map<string, string>, mdc: map<string, string>, order: seq<string>, key: string)
    requires Injective(fields) && key in fields && key in mdc && key in order
    requires forall i, j :: 0 <= i < j < |order| ==> order[i] != order[j]
    ensures fields[key] in MdcFields(m, fields, mdc, order)
    ensures MdcFields(m, fields, mdc, order)[fields[key]] == Text(mdc[key])
    decreases |order|
  {
    var last := order[|order| - 1];
    var front := order[..|order| - 1];
    if last == key {
      assert MdcFields(m, fields, mdc, order) == MdcFields(m, fields, mdc, front)[fields[key] := Text(mdc[key])];
    } else {
      assert key in front by {
        var i :| 0 <= i < |order| && order[i] == key;
        assert i < |order| - 1 && front[i] == key;
      }
      MdcFieldsHit(m, fields, mdc, front, key);
      if last in mdc && last in fields {
        assert fields[last] != fields[key];
      }
    }
  }

  /** A name no MDC entry is renamed to keeps its entry (or its absence). */
  lemma {:induction false} MdcFieldsMiss(m: Message, fields: map<string, string>, mdc: map<string, string>, order: seq<string>, name: string)
    requires forall k :: k in fields && k in mdc ==> fields[k] != name
    ensures name in MdcFields(m, fields, mdc, order) <==> name in m
    ensures name in m ==> MdcFields(m, fields, mdc, order)[name] == m[name]
    decreases |order|
  {
    if order != [] {
      MdcFieldsMiss(m, fields, mdc, order[..|order| - 1], name);
    }
  }

  /** The keys the loop can add: the field names of the MDC keys that have a value. */
  function MdcNames(fields: map<string, string>, mdc: map<string, string>): set<string>
  {
    set k | k in fields && k in mdc :: fields[k]
  }

  // ---------------------------------------------------------------------
  // staticAdditionalFields

  /** Every static field as a text value. */
  function TextMap(statics: map<string, string>): Message
  {
    map k | k in statics :: Text(statics[k])
  }

  /** The map after putting the static fields visited in `order`. */
  function StaticFields(m: Message, statics: map<string, string>, order: seq<string>): Message
    decreases |order|
  {
    if order == [] then m
    else
      var key := order[|order| - 1];
      var r := StaticFields(m, statics, order[..|order| - 1]);
      if key in statics then r[key := Text(statics[key])] else r
  }

  /** The static-field loop. */
  method AddStaticFields(m: Message, statics: map<string, string>, order: seq<string>) returns (r: Message)
    requires IsKeyOrder(order, statics)
    ensures r == StaticFields(m, statics, order)
  {
    r := m;
    var i := 0;
    while i < |order|
      invariant 0 <= i <= |order|
      invariant r == StaticFields(m, statics, order[..i])
    {
      var key := order[i];
      assert order[..i + 1][..i] == order[..i];
      r := r[key := Text(statics[key])];
      i := i + 1;
    }
    assert order[..i] == order;
  }

  /** Whatever the order, the static fields are laid over the map: they win over
      every entry with the same key and leave the others as they were. */
  lemma {:induction false} StaticFieldsOverlay(m: Message, statics: map<string, string>, order: seq<string>)
    requires IsKeyOrder(order, statics)
    ensures StaticFields(m, statics, order) == m + TextMap(statics)
  {
    StaticFieldsPrefix(m, statics, order);
    forall k | k in statics
      ensures k in order
    {
    }
  }

  /** The static fields whose keys appear in `order`, as text values. */
  function Visited(statics: map<string, string>, order: seq<string>): Message
  {
    map k | k in statics && k in order :: Text(statics[k])
  }

  /** Visiting one more key adds that one static field. */
  lemma VisitedSnoc(statics: map<string, string>, front: seq<string>, key: string)
    requires key in statics
    ensures Visited(statics, front + [key]) == Visited(statics, front)[key := Text(statics[key])]
  {
    var order := front + [key];
    forall k
      ensures k in order <==> k in front || k == key
    {
      if k in order {
        var i :| 0 <= i < |order| && order[i] == k;
        if i < |front| {
          assert front[i] == k;
        }
      }
    }
  }

  lemma {:induction false} StaticFieldsPrefix(m: Message, statics: map<string, string>, order: seq<string>)
    requires forall i :: 0 <= i < |order| ==> order[i] in statics
    ensures StaticFields(m, statics, order) == m + Visited(statics, order)
    decreases |order|
  {
    if order != [] {
      var front := order[..|order| - 1];
      var key := order[|order| - 1];
      StaticFieldsPrefix(m, statics, front);
      VisitedSnoc(statics, front, key);
      assert front + [key] == order;
    } else {
      assert Visited(statics, order).Keys == {};
      assert m + Visited(statics, order) == m;
    }
  }
}
