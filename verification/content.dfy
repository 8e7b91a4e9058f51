/** The JSON-like values of dictionary content (`content` fields of the
    dictionary files), with the few JavaScript operations the extension
    applies to them: truthiness, `typeof`, property access, `in` and
    `Object.values`. */
module Content {
  import opened Wrappers
  import opened Text

  /** A value as `JSON.parse` produces it, plus `undefined` for absent
      properties. Numbers are integers; object fields keep their order. */
  datatype Json =
    | Undefined
    | Null
    | Bool(b: bool)
    | Num(n: int)
    | Str(s: string)
    | Arr(items: seq<Json>)
    | Obj(fields: seq<Field>)

  datatype Field = Field(name: string, value: Json)

  /** JavaScript truthiness. */
  predicate Truthy(v: Json) {
    match v
    case Undefined => false
    case Null => false
    case Bool(b) => b
    case Num(n) => n != 0
    case Str(s) => s != ""
    case _ => true
  }

  /** `typeof v`. */
  function TypeOf(v: Json): (t: string)
    ensures t == "object" <==> v.Null? || v.Arr? || v.Obj?
  {
    match v
    case Undefined => "undefined"
    case Null => "object"
    case Bool(_) => "boolean"
    case Num(_) => "number"
    case Str(_) => "string"
    case _ => "object"
  }

  /** `v && typeof v === "object"`: the guard before every property walk. */
  predicate IsObjectLike(v: Json) {
    v.Arr? || v.Obj?
  }

  /** A size that bounds every value reachable by property access. */
  function Size(v: Json): nat {
    match v
    case Arr(items) => 2 + SizeOfItems(items)
    case Obj(fields) => 2 + SizeOfFields(fields)
    case Str(s) => 2 + |s|
    case _ => 1
  }

  function SizeOfItems(items: seq<Json>): nat {
    if items == [] then 0 else Size(items[0]) + SizeOfItems(items[1..])
  }

  function SizeOfFields(fields: seq<Field>): nat {
    if fields == [] then 0 else Size(fields[0].value) + SizeOfFields(fields[1..])
  }

  lemma {:induction false} ItemSmaller(items: seq<Json>, i: nat)
    requires i < |items|
    ensures Size(items[i]) <= SizeOfItems(items)
    decreases i
  {
    if i > 0 { ItemSmaller(items[1..], i - 1); }
  }

  lemma {:induction false} FieldSmaller(fields: seq<Field>, i: nat)
    requires i < |fields|
    ensures Size(fields[i].value) <= SizeOfFields(fields)
    decreases i
  {
    if i > 0 { FieldSmaller(fields[1..], i - 1); }
  }

  /** The first field named `key`. */
  function Lookup(fields: seq<Field>, key: string): (r: Option<nat>)
    ensures r.Some? ==> r.value < |fields| && fields[r.value].name == key
                        && forall j :: 0 <= j < r.value ==> fields[j].name != key
    ensures r.None? ==> forall j :: 0 <= j < |fields| ==> fields[j].name != key
  {
    if fields == [] then None
    else if fields[0].name == key then Some(0)
    else match Lookup(fields[1..], key)
      case Some(j) => Some(j + 1)
      case None => None
  }

  /** The array index `key` denotes, when it is the canonical decimal form of
      an index below `n`. */
  function IndexKey(key: string, n: nat): (r: Option<nat>)
    ensures r.Some? ==> r.value < n && NatToString(r.value) == key
    ensures r.None? ==> forall i :: 0 <= i < n ==> NatToString(i) != key
  {
    if n == 0 then None
    else if NatToString(n - 1) == key then Some(n - 1)
    else IndexKey(key, n - 1)
  }

  /** `key in v`, for the object-like values the extension tests. */
  predicate HasKey(v: Json, key: string) {
    match v
    case Obj(fields) => Lookup(fields, key).Some?
    case Arr(items) => key == "length" || IndexKey(key, |items|).Some?
    case _ => false
  }

  /** `v[key]`: own properties only; a missing property is `undefined`. */
  function Member(v: Json, key: string): (r: Json)
    ensures IsObjectLike(v) ==> Size(r) < Size(v)
    ensures Size(r) <= Size(v)
    ensures v.Obj? ==> (r != Undefined ==> HasKey(v, key))
    ensures IsObjectLike(v) && !HasKey(v, key) ==> r == Undefined
  {
    match v
    case Obj(fields) =>
      (match Lookup(fields, key)
       case Some(i) => FieldSmaller(fields, i); fields[i].value
       case None => Undefined)
    case Arr(items) =>
      if key == "length" then Num(|items|)
      else (match IndexKey(key, |items|)
            case Some(i) => ItemSmaller(items, i); items[i]
            case None => Undefined)
    case Str(s) =>
      if key == "length" then Num(|s|)
      else (match IndexKey(key, |s|)
            case Some(i) => Str([s[i]])
            case None => Undefined)
    case _ => Undefined
  }

  /** `Object.values(v)`. */
  function Values(v: Json): (r: seq<Json>)
    ensures forall i :: 0 <= i < |r| ==> Size(r[i]) <= Size(v)
    ensures v.Obj? ==> |r| == |v.fields| && forall i :: 0 <= i < |r| ==> r[i] == v.fields[i].value
    ensures v.Arr? ==> r == v.items
  {
    match v
    case Obj(fields) =>
      (forall i | 0 <= i < |fields| ensures Size(fields[i].value) <= Size(v) { FieldSmaller(fields, i); }
       seq(|fields|, i requires 0 <= i < |fields| => fields[i].value))
    case Arr(items) =>
      (forall i | 0 <= i < |items| ensures Size(items[i]) <= Size(v) { ItemSmaller(items, i); }
       items)
    case Str(s) => seq(|s|, i requires 0 <= i < |s| => Str([s[i]]))
    case _ => []
  }

  /** `xs[0]`, `undefined` for an empty array. */
  function First(xs: seq<Json>): Json {
    if xs == [] then Undefined else xs[0]
  }

  /** `a ?? b`. */
  function Coalesce(a: Json, b: Json): (r: Json)
    ensures a.Null? || a.Undefined? ==> r == b
    ensures !(a.Null? || a.Undefined?) ==> r == a
  {
    if a.Null? || a.Undefined? then b else a
  }

  /** `a || b`. */
  function Or(a: Json, b: Json): (r: Json)
    ensures Truthy(a) ==> r == a
    ensures !Truthy(a) ==> r == b
  {
    if Truthy(a) then a else b
  }

  /** Following keys through objects: the value at `path`, or None when a key
      is missing or an intermediate value is not an object. */
  function Walk(v: Json, path: seq<string>): (r: Option<Json>)
    ensures path == [] ==> r == Some(v)
    decreases path
  {
    if path == [] then Some(v)
    else if IsObjectLike(v) && HasKey(v, path[0]) then Walk(Member(v, path[0]), path[1..])
    else None
  }

  /** Walking a concatenated path is walking the parts in turn. */
  lemma {:induction false} WalkAppend(v: Json, p: seq<string>, q: seq<string>)
    ensures Walk(v, p + q) == (match Walk(v, p) case Some(w) => Walk(w, q) case None => None)
    decreases |p|
  {
    if p != [] {
      assert (p + q)[1..] == p[1..] + q;
      assert (p + q)[0] == p[0];
      if IsObjectLike(v) && HasKey(v, p[0]) {
        WalkAppend(Member(v, p[0]), p[1..], q);
      }
    } else {
      assert p + q == q;
    }
  }

  /** One entry of an unmerged dictionary file (`<key>.json` holds an array
      of them). An absent or empty `filePath` is "". */
  datatype Dictionary = Dictionary(key: string, location: Option<string>, filePath: string, content: Json)
}
