/** The log event the enrichers write into, and the names of the properties
    they write. Serilog's LogEvent holds a dictionary of named properties;
    AddPropertyIfAbsent never replaces a property that is already there. */
module LogEvents {

  /** A scalar property value: the enrichers write strings and integers. */
  datatype Value = Str(s: string) | Int(i: int)

  /** The caller-information fields an enricher writes. */
  datatype Field = Method | Namespace | SourceFile | LineNumber | ColumnNumber

  function FieldName(f: Field): string
  {
    match f
    case Method => "Method"
    case Namespace => "Namespace"
    case SourceFile => "SourceFile"
    case LineNumber => "LineNumber"
    case ColumnNumber => "ColumnNumber"
  }

  /** The key `$"{prefix}{FieldName}"` under which a field is written. */
  function PropertyKey(prefix: string, f: Field): string
  {
    prefix + FieldName(f)
  }

  /** The fields both enrichers write, in order: Method and Namespace, then,
      with file information, SourceFile, LineNumber and ColumnNumber. */
  function CallerFields(withFile: bool): seq<Field>
  {
    if withFile then [Method, Namespace, SourceFile, LineNumber, ColumnNumber] else [Method, Namespace]
  }

  lemma CallerFieldsDistinct(withFile: bool)
    ensures forall i, j :: 0 <= i < j < |CallerFields(withFile)| ==> CallerFields(withFile)[i] != CallerFields(withFile)[j]
  {
  }

  /** Under one prefix the five fields get five different keys. */
  lemma PropertyKeyInjective(prefix: string, f: Field, g: Field)
    requires PropertyKey(prefix, f) == PropertyKey(prefix, g)
    ensures f == g
  {
    assert PropertyKey(prefix, f)[|prefix|..] == FieldName(f);
    assert PropertyKey(prefix, g)[|prefix|..] == FieldName(g);
  }

  /** Every key ends with the last letter of its field's name. */
  lemma PropertyKeyLastChar(prefix: string, f: Field)
    ensures |PropertyKey(prefix, f)| > 0
    ensures PropertyKey(prefix, f)[|PropertyKey(prefix, f)| - 1] in {'d', 'e', 'r'}
  {
    var k := PropertyKey(prefix, f);
    assert k[|k| - 1] == FieldName(f)[|FieldName(f)| - 1];
  }

  /** One AddPropertyIfAbsent call: a key and the value offered for it. */
  datatype Property = Property(key: string, value: Value)

  /** The effect of AddPropertyIfAbsent on the property dictionary. */
  function AddIfAbsent(props: map<string, Value>, p: Property): map<string, Value>
  {
    if p.key in props then props else props[p.key := p.value]
  }

  /** The effect of a sequence of AddPropertyIfAbsent calls, made in order. */
  function AddAllIfAbsent(props: map<string, Value>, offered: seq<Property>): map<string, Value>
  {
    if offered == [] then props
    else AddIfAbsent(AddAllIfAbsent(props, offered[..|offered| - 1]), offered[|offered| - 1])
  }

  /** The keys of a sequence of offered properties. */
  function OfferedKeys(offered: seq<Property>): set<string>
  {
    set i | 0 <= i < |offered| :: offered[i].key
  }

  predicate DistinctKeys(offered: seq<Property>)
  {
    forall i, j :: 0 <= i < j < |offered| ==> offered[i].key != offered[j].key
  }

  /** The fields whose keys a sequence of offers uses, one per offer. */
  predicate KeysAre(offered: seq<Property>, prefix: string, fields: seq<Field>)
  {
    |offered| == |fields| && forall i :: 0 <= i < |offered| ==> offered[i].key == PropertyKey(prefix, fields[i])
  }

  /** Offers keyed by distinct fields under one prefix have distinct keys. */
  lemma KeysAreDistinct(offered: seq<Property>, prefix: string, fields: seq<Field>)
    requires KeysAre(offered, prefix, fields)
    requires forall i, j :: 0 <= i < j < |fields| ==> fields[i] != fields[j]
    ensures DistinctKeys(offered)
  {
    forall i, j | 0 <= i < j < |offered| ensures offered[i].key != offered[j].key {
      if offered[i].key == offered[j].key {
        PropertyKeyInjective(prefix, fields[i], fields[j]);
      }
    }
  }

  /** No offer keyed by the fields `fields` carries the key of a field outside them. */
  lemma KeysAreAbsent(offered: seq<Property>, prefix: string, fields: seq<Field>, f: Field)
    requires KeysAre(offered, prefix, fields) && f !in fields
    ensures forall i :: 0 <= i < |offered| ==> offered[i].key != PropertyKey(prefix, f)
  {
    forall i | 0 <= i < |offered| ensures offered[i].key != PropertyKey(prefix, f) {
      if offered[i].key == PropertyKey(prefix, f) {
        PropertyKeyInjective(prefix, fields[i], f);
      }
    }
  }

  /** Two sequences of offers with distinct keys and no key in common make one. */
  lemma DistinctKeysAppend(a: seq<Property>, b: seq<Property>)
    requires DistinctKeys(a) && DistinctKeys(b)
    requires forall i, j :: 0 <= i < |a| && 0 <= j < |b| ==> a[i].key != b[j].key
    ensures DistinctKeys(a + b)
  {
  }

  lemma AddAllIfAbsentAppend(props: map<string, Value>, offered: seq<Property>, p: Property)
    ensures AddAllIfAbsent(props, offered + [p]) == AddIfAbsent(AddAllIfAbsent(props, offered), p)
  {
    assert (offered + [p])[..|offered|] == offered;
  }

  /** A single offer. */
  lemma AddAllIfAbsentOne(props: map<string, Value>, p: Property)
    ensures AddAllIfAbsent(props, [p]) == AddIfAbsent(props, p)
  {
    assert [p][..0] == [];
  }

  /** Two more offers, made one after the other. */
  lemma AddAllIfAbsentPair(props: map<string, Value>, offered: seq<Property>, x: Property, y: Property)
    ensures AddAllIfAbsent(props, offered + [x, y]) == AddIfAbsent(AddIfAbsent(AddAllIfAbsent(props, offered), x), y)
  {
    AddAllIfAbsentAppend(props, offered, x);
    AddAllIfAbsentAppend(props, offered + [x], y);
    assert offered + [x] + [y] == offered + [x, y];
  }

  /** Three more offers, made one after the other. */
  lemma AddAllIfAbsentTriple(props: map<string, Value>, offered: seq<Property>, x: Property, y: Property, z: Property)
    ensures AddAllIfAbsent(props, offered + [x, y, z]) == AddIfAbsent(AddIfAbsent(AddIfAbsent(AddAllIfAbsent(props, offered), x), y), z)
  {
    AddAllIfAbsentPair(props, offered, x, y);
    AddAllIfAbsentAppend(props, offered + [x, y], z);
    assert offered + [x, y] + [z] == offered + [x, y, z];
  }

  /** Add-if-absent: every property already present keeps its value, and the
      only keys that appear are the offered ones. */
  lemma {:induction false} AddAllIfAbsentKeeps(props: map<string, Value>, offered: seq<Property>)
    ensures AddAllIfAbsent(props, offered).Keys == props.Keys + OfferedKeys(offered)
    ensures forall k :: k in props ==> AddAllIfAbsent(props, offered)[k] == props[k]
  {
    if offered != [] {
      var init := offered[..|offered| - 1];
      AddAllIfAbsentKeeps(props, init);
      assert OfferedKeys(offered) == OfferedKeys(init) + {offered[|offered| - 1].key} by {
        forall k | k in OfferedKeys(offered) ensures k in OfferedKeys(init) + {offered[|offered| - 1].key} {
          var i :| 0 <= i < |offered| && offered[i].key == k;
          if i < |offered| - 1 { assert init[i] == offered[i]; }
        }
        forall k | k in OfferedKeys(init) ensures k in OfferedKeys(offered) {
          var i :| 0 <= i < |init| && init[i].key == k;
          assert offered[i] == init[i];
        }
      }
    }
  }

  /** When the offered keys are distinct, a key that was absent ends up with
      the value offered for it. */
  lemma {:induction false} AddAllIfAbsentValue(props: map<string, Value>, offered: seq<Property>, i: nat)
    requires DistinctKeys(offered) && i < |offered| && offered[i].key !in props
    ensures offered[i].key in AddAllIfAbsent(props, offered)
    ensures AddAllIfAbsent(props, offered)[offered[i].key] == offered[i].value
  {
    var init := offered[..|offered| - 1];
    if i < |offered| - 1 {
      assert init[i] == offered[i];
      AddAllIfAbsentValue(props, init, i);
    } else {
      AddAllIfAbsentKeeps(props, init);
    }
  }

  /** When the offered keys are distinct, an offered property whose key was
      absent is present afterwards with the offered value. */
  lemma AddAllIfAbsentOffered(props: map<string, Value>, offered: seq<Property>, p: Property)
    requires DistinctKeys(offered) && p in offered && p.key !in props
    ensures p.key in AddAllIfAbsent(props, offered)
    ensures AddAllIfAbsent(props, offered)[p.key] == p.value
  {
    var i :| 0 <= i < |offered| && offered[i] == p;
    AddAllIfAbsentValue(props, offered, i);
  }

  /** A property can be present afterwards only if it was before or was offered. */
  lemma AddAllIfAbsentOnly(props: map<string, Value>, offered: seq<Property>, k: string)
    requires forall i :: 0 <= i < |offered| ==> offered[i].key != k
    ensures k in AddAllIfAbsent(props, offered) <==> k in props
  {
    AddAllIfAbsentKeeps(props, offered);
  }

  /** After offers that start with some not keyed by field `f` and go on
      with offers keyed by `fields`, the key of `f` is present exactly when it
      was before or `f` is one of the fields. */
  lemma AddAllIfAbsentField(props: map<string, Value>, head: seq<Property>, rest: seq<Property>, prefix: string, fields: seq<Field>, f: Field)
    requires forall i :: 0 <= i < |head| ==> head[i].key != PropertyKey(prefix, f)
    requires KeysAre(rest, prefix, fields)
    ensures PropertyKey(prefix, f) in AddAllIfAbsent(props, head + rest) <==> PropertyKey(prefix, f) in props || f in fields
  {
    var offered := head + rest;
    var k := PropertyKey(prefix, f);
    AddAllIfAbsentKeeps(props, offered);
    if f in fields {
      var j :| 0 <= j < |fields| && fields[j] == f;
      assert offered[|head| + j].key == k;
    } else {
      KeysAreAbsent(rest, prefix, fields, f);
      forall i | 0 <= i < |offered| ensures offered[i].key != k {
        if i >= |head| {
          assert offered[i] == rest[i - |head|];
        }
      }
      AddAllIfAbsentOnly(props, offered, k);
    }
  }

  class LogEvent {
    var properties: map<string, Value>

    constructor (properties: map<string, Value>)
      ensures this.properties == properties
    {
      this.properties := properties;
    }

    method AddPropertyIfAbsent(p: Property)
      modifies this
      ensures properties == AddIfAbsent(old(properties), p)
    {
      if p.key !in properties {
        properties := properties[p.key := p.value];
      }
    }
  }
}
