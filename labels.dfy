/**
 The label schema of the target file: which container labels are read, under
 which keys they are written, and how empty labels are left out of the written
 object. A container's raw labels pass through three steps:
   Extract  raw labels -> ContainerLabels   (the `json` tags of ContainerLabels)
   Convert  ContainerLabels -> TargetLabels (the struct conversion TargetLabels(c.Labels))
   Encode   TargetLabels -> label object    (the `json` tags of TargetLabels, with omitempty)
 OutputLabels is the three composed, and the lemmas at the end state what the
 composition promises about every raw label mapping.
 */
module Labels {

  /** A string-to-string label mapping: the raw labels a container carries, or
      the label object written for a target. */
  type LabelMap = map<string, string>

  /** The six recognised labels, in the order both structs declare them. */
  datatype Field = AppLabel | ApplicationLabel | ComponentLabel | StackLabel | ServiceLabel | TypeLabel

  /** The raw label key a field is decoded from. */
  function RawKey(f: Field): string
  {
    match f
    case AppLabel => "app"
    case ApplicationLabel => "application"
    case ComponentLabel => "component"
    case StackLabel => "com.docker.stack.namespace"
    case ServiceLabel => "com.docker.swarm.service.name"
    case TypeLabel => "type"
  }

  /** The key a field is written under; only the stack and service labels are renamed. */
  function OutKey(f: Field): string
  {
    match f
    case AppLabel => "app"
    case ApplicationLabel => "application"
    case ComponentLabel => "component"
    case StackLabel => "stack"
    case ServiceLabel => "service"
    case TypeLabel => "type"
  }

  /** Neither key table sends two fields to one key, so no label can shadow another,
      and exactly the stack and service labels change their key on the way through. */
  lemma KeyTables(f: Field, g: Field)
    ensures RawKey(f) == RawKey(g) ==> f == g
    ensures OutKey(f) == OutKey(g) ==> f == g
    ensures RawKey(f) != OutKey(f) <==> f == StackLabel || f == ServiceLabel
  {
  }

  /** Exact-key lookup; a key that is not there reads as Go's zero string. */
  function Lookup(m: LabelMap, key: string): string
  {
    if key in m then m[key] else ""
  }

  /** The labels extracted from one container; "" stands for a label it does not carry. */
  datatype ContainerLabels = ContainerLabels(
    App: string,
    Application: string,
    Component: string,
    Stack: string,
    ComDockerSwarmServiceName: string,
    Type: string)
  {
    function Get(f: Field): string
    {
      match f
      case AppLabel => App
      case ApplicationLabel => Application
      case ComponentLabel => Component
      case StackLabel => Stack
      case ServiceLabel => ComDockerSwarmServiceName
      case TypeLabel => Type
    }
  }

  /** The labels written for one target; "" stands for a label that is left out. */
  datatype TargetLabels = TargetLabels(
    App: string,
    Application: string,
    Component: string,
    Stack: string,
    ComDockerSwarmServiceName: string,
    Type: string)
  {
    function Get(f: Field): string
    {
      match f
      case AppLabel => App
      case ApplicationLabel => Application
      case ComponentLabel => Component
      case StackLabel => Stack
      case ServiceLabel => ComDockerSwarmServiceName
      case TypeLabel => Type
    }
  }

  /** Decoding a raw label mapping into ContainerLabels: each field takes the value
      of its raw key, or "" when the key is missing, and every other key is dropped. */
  function Extract(raw: LabelMap): (c: ContainerLabels)
    ensures forall f :: c.Get(f) == Lookup(raw, RawKey(f))
  {
    ContainerLabels(
      Lookup(raw, RawKey(AppLabel)),
      Lookup(raw, RawKey(ApplicationLabel)),
      Lookup(raw, RawKey(ComponentLabel)),
      Lookup(raw, RawKey(StackLabel)),
      Lookup(raw, RawKey(ServiceLabel)),
      Lookup(raw, RawKey(TypeLabel)))
  }

  /** Keys outside the six recognised ones have no effect on the extracted record. */
  lemma ExtractIgnoresUnrecognised(raw: LabelMap, key: string, value: string)
    requires forall f :: RawKey(f) != key
    ensures Extract(raw[key := value]) == Extract(raw)
    ensures Extract(raw - {key}) == Extract(raw)
  {
  }

  /** The struct conversion TargetLabels(c): field for field, nothing altered. */
  function Convert(c: ContainerLabels): (t: TargetLabels)
    ensures forall f :: t.Get(f) == c.Get(f)
  {
    TargetLabels(c.App, c.Application, c.Component, c.Stack, c.ComDockerSwarmServiceName, c.Type)
  }

  /** The conversion loses nothing: distinct records stay distinct. */
  lemma ConvertInjective(c: ContainerLabels, d: ContainerLabels)
    requires Convert(c) == Convert(d)
    ensures c == d
  {
  }

  /** Writes one field under an omitempty tag: an empty value adds no entry. */
  function Put(m: LabelMap, key: string, value: string): LabelMap
  {
    if value == "" then m else m[key := value]
  }

  /** The six fields in declaration order. */
  const Fields: seq<Field> := [AppLabel, ApplicationLabel, ComponentLabel, StackLabel, ServiceLabel, TypeLabel]

  /** Fields lists every field. */
  lemma FieldsComplete()
    ensures forall f :: f in Fields
  {
    forall f
      ensures f in Fields
    {
      match f
      case AppLabel => assert f == Fields[0];
      case ApplicationLabel => assert f == Fields[1];
      case ComponentLabel => assert f == Fields[2];
      case StackLabel => assert f == Fields[3];
      case ServiceLabel => assert f == Fields[4];
      case TypeLabel => assert f == Fields[5];
    }
  }

  /** Writes the fields fs of t, each under its output key and omitted when empty. */
  function EncodeFields(t: TargetLabels, fs: seq<Field>): LabelMap
  {
    if fs == [] then map[] else Put(EncodeFields(t, fs[1..]), OutKey(fs[0]), t.Get(fs[0]))
  }

  /** A listed field is written under its output key exactly when it is non-empty,
      and then with its value. */
  lemma {:induction false} EncodeFieldsAt(t: TargetLabels, fs: seq<Field>, f: Field)
    requires f in fs
    ensures OutKey(f) in EncodeFields(t, fs) <==> t.Get(f) != ""
    ensures OutKey(f) in EncodeFields(t, fs) ==> EncodeFields(t, fs)[OutKey(f)] == t.Get(f)
  {
    var g := fs[0];
    var rest := EncodeFields(t, fs[1..]);
    assert EncodeFields(t, fs) == Put(rest, OutKey(g), t.Get(g));
    assert fs == [g] + fs[1..];
    if f != g {
      EncodeFieldsAt(t, fs[1..], f);
      KeyTables(f, g);
    } else if OutKey(g) in rest {
      EncodeFieldsFrom(t, fs[1..], OutKey(g));
      var h :| h in fs[1..] && OutKey(g) == OutKey(h);
      KeyTables(g, h);
      EncodeFieldsAt(t, fs[1..], g);
    }
  }

  /** Every written entry is a non-empty field of fs under its output key. */
  lemma {:induction false} EncodeFieldsFrom(t: TargetLabels, fs: seq<Field>, key: string)
    requires key in EncodeFields(t, fs)
    ensures EncodeFields(t, fs)[key] != ""
    ensures exists f :: f in fs && key == OutKey(f)
  {
    var g := fs[0];
    var rest := EncodeFields(t, fs[1..]);
    assert EncodeFields(t, fs) == Put(rest, OutKey(g), t.Get(g));
    if key != OutKey(g) || t.Get(g) == "" {
      EncodeFieldsFrom(t, fs[1..], key);
      var f :| f in fs[1..] && key == OutKey(f);
      assert f in fs;
    }
  }

  /** The label object written for a TargetLabels record: one entry per non-empty
      field, under that field's output key, holding the field's value; nothing else. */
  function Encode(t: TargetLabels): (m: LabelMap)
    ensures forall f :: OutKey(f) in m <==> t.Get(f) != ""
    ensures forall f :: OutKey(f) in m ==> m[OutKey(f)] == t.Get(f)
    ensures forall key :: key in m ==> exists f :: key == OutKey(f)
    ensures forall key :: key in m ==> m[key] != ""
  {
    var m := EncodeFields(t, Fields);
    FieldsComplete();
    forall f
      ensures OutKey(f) in m <==> t.Get(f) != ""
      ensures OutKey(f) in m ==> m[OutKey(f)] == t.Get(f)
    {
      EncodeFieldsAt(t, Fields, f);
    }
    forall key | key in m
      ensures m[key] != "" && exists f :: key == OutKey(f)
    {
      EncodeFieldsFrom(t, Fields, key);
    }
    m
  }

  /** Reading a written label object back by exact key, a missing key as "". */
  function Read(m: LabelMap): (t: TargetLabels)
    ensures forall f :: t.Get(f) == Lookup(m, OutKey(f))
  {
    TargetLabels(
      Lookup(m, OutKey(AppLabel)),
      Lookup(m, OutKey(ApplicationLabel)),
      Lookup(m, OutKey(ComponentLabel)),
      Lookup(m, OutKey(StackLabel)),
      Lookup(m, OutKey(ServiceLabel)),
      Lookup(m, OutKey(TypeLabel)))
  }

  /** A label object as Encode can produce it: only output keys, no empty values. */
  ghost predicate Sparse(m: LabelMap)
  {
    forall key :: key in m ==> m[key] != "" && exists f :: key == OutKey(f)
  }

  /** Leaving empty labels out loses nothing: reading the object back gives the record. */
  lemma ReadEncode(t: TargetLabels)
    ensures Read(Encode(t)) == t
  {
  }

  /** Every sparse label object is the encoding of exactly the record read from it. */
  lemma EncodeRead(m: LabelMap)
    requires Sparse(m)
    ensures Encode(Read(m)) == m
  {
  }

  /** The label object written for a container whose raw labels are raw. */
  function OutputLabels(raw: LabelMap): LabelMap
  {
    Encode(Convert(Extract(raw)))
  }

  /** A recognised label with a non-empty value is written, unchanged, under its output key. */
  lemma OutputCarriesRecognised(raw: LabelMap, f: Field)
    requires RawKey(f) in raw && raw[RawKey(f)] != ""
    ensures OutKey(f) in OutputLabels(raw)
    ensures OutputLabels(raw)[OutKey(f)] == raw[RawKey(f)]
  {
  }

  /** A recognised label that is missing or empty is not written at all. */
  lemma OutputOmitsAbsent(raw: LabelMap, f: Field)
    requires RawKey(f) !in raw || raw[RawKey(f)] == ""
    ensures OutKey(f) !in OutputLabels(raw)
  {
  }

  /** Every written entry comes from a recognised raw label of the container, with its
      value unchanged and never empty; no other key is ever written. */
  lemma OutputFromRecognisedOnly(raw: LabelMap)
    ensures forall key :: key in OutputLabels(raw) ==>
      OutputLabels(raw)[key] != "" &&
      exists f :: key == OutKey(f) && RawKey(f) in raw && raw[RawKey(f)] == OutputLabels(raw)[key]
  {
  }

  /** Only the recognised keys matter: adding or removing any other raw label leaves the
      written label object as it was. */
  lemma OutputIgnoresUnrecognised(raw: LabelMap, key: string, value: string)
    requires forall f :: RawKey(f) != key
    ensures OutputLabels(raw[key := value]) == OutputLabels(raw)
    ensures OutputLabels(raw - {key}) == OutputLabels(raw)
  {
    ExtractIgnoresUnrecognised(raw, key, value);
  }

  /** A container with none of the recognised labels gets an empty label object. */
  lemma OutputEmptyWithoutRecognised(raw: LabelMap)
    requires forall f :: RawKey(f) !in raw
    ensures OutputLabels(raw) == map[]
  {
  }
}
