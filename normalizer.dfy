/**
 * `CaseFile._pickle_suds`: turns the SOAP client's response object into plain nested
 * dictionaries, lists and strings that can be pickled and compared with `!=`.
 *
 * The response is a field map whose values are a list of objects, a nested object, a text
 * string or some other scalar `S`. How a leaf becomes a string (`value.encode('UTF-8')`
 * for text, `str(value)` otherwise) is not modelled: the two conversions are parameters.
 */
module Normalizer {

  /** A field value of a response object. */
  datatype Value<S> =
    | Items(items: seq<Object<S>>)
    | Nested(obj: Object<S>)
    | Text(text: string)
    | Scalar(scalar: S)

  /** `asdict(suds_object)`: field name to value. */
  datatype Object<S> = Object(fields: map<string, Value<S>>)

  /** The normalised snapshot that is pickled to `data.repr` and compared on the next update. */
  datatype Tree =
    | Dict(entries: map<string, Tree>)
    | List(elems: seq<Tree>)
    | Str(s: string)

  function NormalizeObject<S>(o: Object<S>, encode: string -> string, show: S -> string): (t: Tree)
    ensures t.Dict? && t.entries.Keys == o.fields.Keys
    decreases o
  {
    Dict(map k | k in o.fields :: NormalizeValue(o.fields[k], encode, show))
  }

  function NormalizeValue<S>(v: Value<S>, encode: string -> string, show: S -> string): (t: Tree)
    ensures v.Items? ==> t.List? && |t.elems| == |v.items|
    ensures v.Nested? ==> t.Dict? && t.entries.Keys == v.obj.fields.Keys
    ensures v.Text? ==> t == Str(encode(v.text))
    ensures v.Scalar? ==> t == Str(show(v.scalar))
    decreases v
  {
    match v
    case Items(items) => List(seq(|items|, i requires 0 <= i < |items| => NormalizeObject(items[i], encode, show)))
    case Nested(obj) => NormalizeObject(obj, encode, show)
    case Text(s) => Str(encode(s))
    case Scalar(x) => Str(show(x))
  }

  /**
   * The loop of `_pickle_suds`: every field is visited once; a list has each slot replaced
   * by its normalised object, a nested object is normalised recursively, a leaf becomes a string.
   */
  method PickleSuds<S>(o: Object<S>, encode: string -> string, show: S -> string) returns (t: Tree)
    ensures t == NormalizeObject(o, encode, show)
    decreases o
  {
    var begin: map<string, Tree> := map[];
    var todo := o.fields.Keys;
    while todo != {}
      invariant todo <= o.fields.Keys
      invariant begin.Keys == o.fields.Keys - todo
      invariant forall k :: k in begin ==> begin[k] == NormalizeValue(o.fields[k], encode, show)
      decreases todo
    {
      var key :| key in todo;
      var value := o.fields[key];
      match value {
        case Items(items) =>
          var slots := new Tree[|items|](_ => Str(""));
          for i := 0 to |items|
            invariant forall j :: 0 <= j < i ==> slots[j] == NormalizeObject(items[j], encode, show)
          {
            slots[i] := PickleSuds(items[i], encode, show);
          }
          begin := begin[key := List(slots[..])];
        case Nested(obj) =>
          var nested := PickleSuds(obj, encode, show);
          begin := begin[key := nested];
        case Text(s) =>
          begin := begin[key := Str(encode(s))];
        case Scalar(x) =>
          begin := begin[key := Str(show(x))];
      }
      todo := todo - {key};
    }
    t := Dict(begin);
  }

  /** Same shape: the same keys in every dictionary, the same length for every list, a string at every leaf. */
  ghost predicate ShapeOfObject<S>(o: Object<S>, t: Tree)
    decreases o
  {
    t.Dict? && t.entries.Keys == o.fields.Keys &&
    forall k :: k in o.fields ==> ShapeOfValue(o.fields[k], t.entries[k])
  }

  ghost predicate ShapeOfValue<S>(v: Value<S>, t: Tree)
    decreases v
  {
    match v
    case Items(items) =>
      t.List? && |t.elems| == |items| &&
      forall i :: 0 <= i < |items| ==> ShapeOfObject(items[i], t.elems[i])
    case Nested(obj) => ShapeOfObject(obj, t)
    case Text(_) => t.Str?
    case Scalar(_) => t.Str?
  }

  /** Normalisation preserves the structure of the response all the way down. */
  lemma {:induction false} NormalizePreservesShape<S>(o: Object<S>, encode: string -> string, show: S -> string)
    ensures ShapeOfObject(o, NormalizeObject(o, encode, show))
    decreases o
  {
    var t := NormalizeObject(o, encode, show);
    forall k | k in o.fields
      ensures ShapeOfValue(o.fields[k], t.entries[k])
    {
      NormalizeValuePreservesShape(o.fields[k], encode, show);
    }
  }

  lemma {:induction false} NormalizeValuePreservesShape<S>(v: Value<S>, encode: string -> string, show: S -> string)
    ensures ShapeOfValue(v, NormalizeValue(v, encode, show))
    decreases v
  {
    match v
    case Items(items) =>
      var t := NormalizeValue(v, encode, show);
      forall i | 0 <= i < |items|
        ensures ShapeOfObject(items[i], t.elems[i])
      {
        NormalizePreservesShape(items[i], encode, show);
      }
    case Nested(obj) =>
      NormalizePreservesShape(obj, encode, show);
    case Text(_) =>
    case Scalar(_) =>
  }
}
