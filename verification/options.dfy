/** The option model of the editor: the `TransformationParams` object, the
    record update performed by `updateTransformation`, the reset, the badge
    count of active options and the download file name. */
module Options {

  /** The keys of `TransformationParams`, in declaration order. The first
      eighteen are declared as strings, the last four as booleans. */
  datatype Key =
    | Height | Width | AspectRatio | Quality | Format | Rotation | Crop | Focus
    | Blur | Sharpen | Brightness | Contrast | Saturation | Hue | Gamma | Radius
    | Border | BorderColor
    | Grayscale | Sepia | Progressive | Lossless

  datatype Option<T> = None | Some(value: T)

  /** A value stored under a key; `updateTransformation` takes `string | boolean`. */
  datatype Value = Str(s: string) | Bool(b: bool)

  /** The `TransformationParams` object. A key that is not in the map reads as
      `undefined`, which is how the object starts (`{}`). */
  type Params = map<Key, Value>

  /** Whether a key is declared with type `boolean`. */
  predicate IsFlag(k: Key)
  {
    k.Grayscale? || k.Sepia? || k.Progressive? || k.Lossless?
  }

  /** JavaScript truthiness of a stored value: `""` and `false` are falsy. */
  predicate Truthy(v: Value)
    ensures Truthy(v) <==> v != Str("") && v != Bool(false)
  {
    match v
    case Str(s) => s != ""
    case Bool(b) => b
  }

  /** `if (transformations.k)`: the key holds a truthy value. */
  predicate Present(p: Params, k: Key)
    ensures k !in p ==> !Present(p, k)
    ensures Present(p, k) ==> Show(p[k]) != ""
  {
    k in p && Truthy(p[k])
  }

  /** A value as a template literal `${...}` renders it. */
  function Show(v: Value): (r: string)
    ensures v.Str? ==> r == v.s
    ensures v.Bool? ==> (r == "true" <==> v.b)
    ensures r == "" <==> !Truthy(v) && v.Str?
  {
    match v
    case Str(s) => s
    case Bool(b) => if b then "true" else "false"
  }

  /** Every stored value has the type its key is declared with. */
  ghost predicate WellTyped(p: Params)
  {
    forall k :: k in p ==> (p[k].Bool? <==> IsFlag(k))
  }

  /** No falsy value is ever stored: absence is always "not a key". */
  ghost predicate Coerced(p: Params)
  {
    forall k :: k in p ==> Truthy(p[k])
  }

  /** `updateTransformation(k, v)`: `{...prev, [k]: v || undefined}`. */
  function Update(p: Params, k: Key, v: Value): (r: Params)
    ensures Present(r, k) <==> Truthy(v)
    ensures k in r ==> r[k] == v
    ensures forall j :: j != k ==> (j in r <==> j in p)
    ensures forall j :: j in r && j != k ==> r[j] == p[j]
    ensures Coerced(p) ==> Coerced(r)
    ensures WellTyped(p) && (v.Bool? <==> IsFlag(k)) ==> WellTyped(r)
  {
    if Truthy(v) then p[k := v] else p - {k}
  }

  /** `resetTransformations`: back to `{}`. */
  function Reset(): (r: Params)
    ensures forall k :: !Present(r, k)
    ensures Coerced(r) && WellTyped(r)
  {
    map[]
  }

  /** The keys whose values `Object.values(...).filter((v) => v)` keeps. */
  function TruthyKeys(p: Params): (s: set<Key>)
    ensures forall k :: k in s <==> Present(p, k)
  {
    set k | k in p && Truthy(p[k])
  }

  /** `transformationCount`: the number of truthy values in the object. */
  function TransformationCount(p: Params): (n: nat)
    ensures n == 0 <==> forall k :: !Present(p, k)
  {
    var s := TruthyKeys(p);
    assert s == {} <==> forall k :: !Present(p, k);
    |s|
  }

  /** The name given to the downloaded file: `transformed-image.` followed by
      the chosen format, or `jpg` when no format is chosen. */
  function DownloadFilename(p: Params): (name: string)
    ensures |name| > 18 && name[..18] == "transformed-image."
    ensures Present(p, Format) ==> name[18..] == Show(p[Format])
    ensures !Present(p, Format) ==> name[18..] == "jpg"
  {
    "transformed-image." + (if Present(p, Format) then Show(p[Format]) else "jpg")
  }

  /** Choosing a format names the download after it; clearing it gives `jpg`. */
  lemma DownloadFilenameAfterEdit(p: Params, f: string)
    ensures DownloadFilename(Update(p, Format, Str(f)))
         == "transformed-image." + (if f == "" then "jpg" else f)
  {
  }

  /** One user edit: `updateTransformation(edit.0, edit.1)`. */
  type Edit = (Key, Value)

  /** The object after a series of edits, applied in order. */
  function ApplyEdits(p: Params, edits: seq<Edit>): Params
  {
    if edits == [] then p
    else
      var last := edits[|edits| - 1];
      Update(ApplyEdits(p, edits[..|edits| - 1]), last.0, last.1)
  }

  /** The value of the last edit of key `k`, if any. */
  function LastEdit(edits: seq<Edit>, k: Key): Option<Value>
  {
    if edits == [] then None
    else if edits[|edits| - 1].0 == k then Some(edits[|edits| - 1].1)
    else LastEdit(edits[..|edits| - 1], k)
  }

  /** After a series of edits a key holds its last edited value when that is
      truthy, is absent when that is falsy, and is untouched when never edited. */
  lemma {:induction false} ApplyEditsLastWins(p: Params, edits: seq<Edit>, k: Key)
    ensures match LastEdit(edits, k)
            case None => (k in ApplyEdits(p, edits) <==> k in p)
                         && (k in p ==> ApplyEdits(p, edits)[k] == p[k])
            case Some(v) => (k in ApplyEdits(p, edits) <==> Truthy(v))
                            && (Truthy(v) ==> ApplyEdits(p, edits)[k] == v)
  {
    if edits != [] {
      ApplyEditsLastWins(p, edits[..|edits| - 1], k);
    }
  }

  /** The object depends only on the last edit of each key, not on the order
      in which different keys were edited. */
  lemma EditOrderIrrelevant(p: Params, e1: seq<Edit>, e2: seq<Edit>)
    requires forall k :: LastEdit(e1, k) == LastEdit(e2, k)
    ensures ApplyEdits(p, e1) == ApplyEdits(p, e2)
  {
    var r1, r2 := ApplyEdits(p, e1), ApplyEdits(p, e2);
    forall k
      ensures (k in r1 <==> k in r2) && (k in r1 ==> r1[k] == r2[k])
    {
      ApplyEditsLastWins(p, e1, k);
      ApplyEditsLastWins(p, e2, k);
    }
  }

  /** Edits starting from `{}` never store a falsy value. */
  lemma {:induction false} ApplyEditsCoerced(p: Params, edits: seq<Edit>)
    requires Coerced(p)
    ensures Coerced(ApplyEdits(p, edits))
  {
    if edits != [] {
      ApplyEditsCoerced(p, edits[..|edits| - 1]);
    }
  }
}
