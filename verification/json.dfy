/**
 * The JSON-like values the cache stores, with the two JavaScript tests the
 * extension applies to them (`typeof v === 'object'` and truthiness), and the
 * shape a `DirectoryOption` takes once stored.
 */
module Json {
  import opened Wrappers
  import opened Types

  /** Numbers are JavaScript doubles; reals stand for their finite values. */
  datatype Value =
    | Undefined
    | Null
    | Bool(b: bool)
    | Num(n: real)
    | Str(s: string)
    | Arr(elems: seq<Value>)
    | Obj(fields: map<string, Value>)

  /** `typeof v === 'object'`: true of null as well as of arrays and plain objects. */
  predicate IsObject(v: Value) {
    v.Null? || v.Arr? || v.Obj?
  }

  /** JavaScript truthiness: what `v || d` and `!v` test. */
  predicate IsTruthy(v: Value) {
    match v
    case Undefined => false
    case Null => false
    case Bool(b) => b
    case Num(n) => n != 0.0
    case Str(s) => s != ""
    case Arr(_) => true
    case Obj(_) => true
  }

  function EncodeLocation(loc: FSLocation): Value {
    Obj(map["relative" := Str(loc.relative), "absolute" := Str(loc.absolute)])
  }

  /** The object a `DirectoryOption` is stored as. */
  function EncodeOption(o: DirectoryOption): (v: Value)
    ensures IsObject(v) && IsTruthy(v)
  {
    Obj(map["displayText" := Str(o.displayText), "fsLocation" := EncodeLocation(o.fsLocation)])
  }

  function DecodeLocation(v: Value): Option<FSLocation> {
    if v.Obj? && "relative" in v.fields && "absolute" in v.fields
       && v.fields["relative"].Str? && v.fields["absolute"].Str?
    then Some(FSLocation(v.fields["relative"].s, v.fields["absolute"].s))
    else None
  }

  /** Reads back a stored `DirectoryOption`; anything not of that shape gives None. */
  function DecodeOption(v: Value): Option<DirectoryOption> {
    if v.Obj? && "displayText" in v.fields && "fsLocation" in v.fields && v.fields["displayText"].Str?
    then
      match DecodeLocation(v.fields["fsLocation"])
      case Some(loc) => Some(DirectoryOption(v.fields["displayText"].s, loc))
      case None => None
    else None
  }

  /** A stored directory option reads back as itself. */
  lemma DecodeEncode(o: DirectoryOption)
    ensures DecodeOption(EncodeOption(o)) == Some(o)
  {
  }

  /** What decodes is an object, and never null. */
  lemma DecodedIsObject(v: Value)
    ensures DecodeOption(v).Some? ==> IsObject(v) && IsTruthy(v)
  {
  }
}
