/** The part of `URLSearchParams` the editor uses: construction from a query
    string (the application/x-www-form-urlencoded parser of the WHATWG URL
    Standard, section 5.1), `delete`, `set` (section 6.2) and `toString` (the
    urlencoded serializer, section 5.2). The list is an ordered sequence of
    name-value pairs; percent-decoding and percent-encoding are parameters. */
module Query {
  import opened Strings

  /** One name-value pair of the list. */
  type Pair = (string, string)

  /** The parser's `+` to space replacement, made before percent-decoding. */
  function PlusToSpace(s: string): (r: string)
    ensures |r| == |s|
    ensures forall i :: 0 <= i < |s| ==> r[i] == (if s[i] == '+' then ' ' else s[i])
  {
    if s == [] then [] else [if s[0] == '+' then ' ' else s[0]] + PlusToSpace(s[1..])
  }

  /** One non-empty `&`-separated piece: the name is what precedes the first
      `=`, the value what follows it (empty when there is no `=`). */
  function ParsePiece(piece: string, dec: string -> string): Pair
  {
    var i := FirstIndex(piece, '=');
    var name := piece[..i];
    var value := if i < |piece| then piece[i + 1..] else "";
    (dec(PlusToSpace(name)), dec(PlusToSpace(value)))
  }

  /** The pairs of a list of pieces; empty pieces are skipped. */
  function ParsePieces(pieces: seq<string>, dec: string -> string): (r: seq<Pair>)
    ensures |r| <= |pieces|
  {
    if pieces == [] then []
    else if pieces[0] == "" then ParsePieces(pieces[1..], dec)
    else [ParsePiece(pieces[0], dec)] + ParsePieces(pieces[1..], dec)
  }

  /** `new URLSearchParams(init)`: a leading `?` is dropped, then the string
      is cut at every `&`. */
  function Parse(init: string, dec: string -> string): (r: seq<Pair>)
    ensures init == "" ==> r == []
  {
    var q := if |init| > 0 && init[0] == '?' then init[1..] else init;
    ParsePieces(Split(q, '&'), dec)
  }

  /** The pairs of `ps` not named `name`, in their order. */
  function Without(ps: seq<Pair>, name: string): (r: seq<Pair>)
    ensures |r| <= |ps|
    ensures forall i :: 0 <= i < |r| ==> r[i].0 != name
    ensures (forall i :: 0 <= i < |ps| ==> ps[i].0 != name) ==> r == ps
  {
    if ps == [] then []
    else if ps[0].0 == name then Without(ps[1..], name)
    else [ps[0]] + Without(ps[1..], name)
  }

  /** Index of the first pair named `name`, or `|ps|` when there is none. */
  function FirstNamed(ps: seq<Pair>, name: string): (r: nat)
    ensures r <= |ps|
    ensures r < |ps| ==> ps[r].0 == name
    ensures forall i :: 0 <= i < r ==> ps[i].0 != name
  {
    if ps == [] then 0
    else if ps[0].0 == name then 0
    else 1 + FirstNamed(ps[1..], name)
  }

  /** `set(name, value)`: the first pair named `name` takes the value and
      every later one is removed; with no such pair, one is appended. */
  function SetPair(ps: seq<Pair>, name: string, value: string): (r: seq<Pair>)
    ensures (name, value) in r
    ensures (forall i :: 0 <= i < |ps| ==> ps[i].0 != name) ==> r == ps + [(name, value)]
  {
    var i := FirstNamed(ps, name);
    if i == |ps| then ps + [(name, value)]
    else ps[..i] + [(name, value)] + Without(ps[i + 1..], name)
  }

  /** The number of pairs named `name`. */
  function Named(ps: seq<Pair>, name: string): (n: nat)
    ensures n <= |ps|
  {
    if ps == [] then 0
    else (if ps[0].0 == name then 1 else 0) + Named(ps[1..], name)
  }

  /** The serialized pairs: each is the encoded name, `=` and the encoded value. */
  function Fields(ps: seq<Pair>, enc: string -> string): (r: seq<string>)
    ensures |r| == |ps|
    ensures forall i :: 0 <= i < |ps| ==> r[i] == enc(ps[i].0) + "=" + enc(ps[i].1)
  {
    if ps == [] then [] else [enc(ps[0].0) + "=" + enc(ps[0].1)] + Fields(ps[1..], enc)
  }

  /** `toString()`: the serialized pairs joined with `&`. */
  function Serialize(ps: seq<Pair>, enc: string -> string): (r: string)
    ensures ps == [] ==> r == ""
    ensures |ps| == 1 ==> r == enc(ps[0].0) + "=" + enc(ps[0].1)
    ensures |ps| >= 2 ==> var f := enc(ps[0].0) + "=" + enc(ps[0].1);
                          |f| < |r| && r[..|f|] == f && r[|f|] == '&'
  {
    Join(Fields(ps, enc), "&")
  }

  /** A `URLSearchParams` object: its list is updated in place. */
  class SearchParams {
    var list: seq<Pair>

    constructor (init: string, dec: string -> string)
      ensures list == Parse(init, dec)
    {
      list := Parse(init, dec);
    }

    method Delete(name: string)
      modifies this
      ensures list == Without(old(list), name)
    {
      list := Without(list, name);
    }

    method Set(name: string, value: string)
      modifies this
      ensures list == SetPair(old(list), name, value)
    {
      list := SetPair(list, name, value);
    }

    method ToString(enc: string -> string) returns (s: string)
      ensures s == Serialize(list, enc)
    {
      s := Serialize(list, enc);
    }
  }

  /** Removing pairs distributes over concatenation: together with
      `WithoutSingle` this says `Without` keeps exactly the other pairs, in
      their original order. */
  lemma {:induction false} WithoutAppend(a: seq<Pair>, b: seq<Pair>, name: string)
    ensures Without(a + b, name) == Without(a, name) + Without(b, name)
  {
    if a != [] {
      assert (a + b)[1..] == a[1..] + b;
      WithoutAppend(a[1..], b, name);
    } else {
      assert a + b == b;
    }
  }

  /** A single pair is kept exactly when it has another name. */
  lemma WithoutSingle(x: Pair, name: string)
    ensures Without([x], name) == if x.0 == name then [] else [x]
  {
  }

  /** After `delete(name)` no pair is named `name`, and a second delete
      changes nothing. */
  lemma WithoutIdempotent(ps: seq<Pair>, name: string)
    ensures Named(Without(ps, name), name) == 0
    ensures Without(Without(ps, name), name) == Without(ps, name)
  {
    NamedZero(Without(ps, name), name);
  }

  /** No pair is named `name` exactly when the count is zero. */
  lemma {:induction false} NamedZero(ps: seq<Pair>, name: string)
    ensures Named(ps, name) == 0 <==> forall i :: 0 <= i < |ps| ==> ps[i].0 != name
  {
    if ps != [] {
      NamedZero(ps[1..], name);
      assert forall i :: 1 <= i < |ps| ==> ps[i] == ps[1..][i - 1];
    }
  }

  /** After `set(name, value)` exactly one pair is named `name`, it holds
      `value`, and the pairs with other names are those before, in order. */
  lemma SetPairEffect(ps: seq<Pair>, name: string, value: string)
    ensures Named(SetPair(ps, name, value), name) == 1
    ensures Without(SetPair(ps, name, value), name) == Without(ps, name)
  {
    var i := FirstNamed(ps, name);
    var rest := if i == |ps| then [] else Without(ps[i + 1..], name);
    SetPairNamed(ps[..i], name, value, rest);
    if i < |ps| {
      SetPairWithoutFound(ps, i, name, value);
    } else {
      assert ps[..i] + [(name, value)] + rest == ps + [(name, value)];
      WithoutAppend(ps, [(name, value)], name);
    }
  }

  /** The count of a list with one pair named `name` between two lists
      without one. */
  lemma SetPairNamed(a: seq<Pair>, name: string, value: string, b: seq<Pair>)
    requires forall i :: 0 <= i < |a| ==> a[i].0 != name
    requires forall i :: 0 <= i < |b| ==> b[i].0 != name
    ensures Named(a + [(name, value)] + b, name) == 1
  {
    NamedAppend(a + [(name, value)], b, name);
    NamedAppend(a, [(name, value)], name);
    NamedZero(a, name);
    NamedZero(b, name);
  }

  /** Replacing the first pair named `name`, at index `i`, and dropping the
      later ones leaves the pairs with other names as they were. */
  lemma SetPairWithoutFound(ps: seq<Pair>, i: nat, name: string, value: string)
    requires i < |ps| && ps[i].0 == name
    requires forall j :: 0 <= j < i ==> ps[j].0 != name
    ensures Without(ps[..i] + [(name, value)] + Without(ps[i + 1..], name), name) == Without(ps, name)
  {
    var a, rest := ps[..i], Without(ps[i + 1..], name);
    WithoutAppend(a + [(name, value)], rest, name);
    WithoutAppend(a, [(name, value)], name);
    WithoutIdempotent(ps[i + 1..], name);
    assert ps == a + [ps[i]] + ps[i + 1..];
    WithoutAppend(a + [ps[i]], ps[i + 1..], name);
    WithoutAppend(a, [ps[i]], name);
  }

  /** Counting distributes over concatenation. */
  lemma {:induction false} NamedAppend(a: seq<Pair>, b: seq<Pair>, name: string)
    ensures Named(a + b, name) == Named(a, name) + Named(b, name)
  {
    if a != [] {
      assert (a + b)[1..] == a[1..] + b;
      NamedAppend(a[1..], b, name);
    } else {
      assert a + b == b;
    }
  }

  /** A codec whose encoding never produces `&`, `=` or `?` and which the
      parser's `+` replacement followed by `dec` undoes. */
  ghost predicate Inverse(enc: string -> string, dec: string -> string)
  {
    forall x :: '&' !in enc(x) && '=' !in enc(x) && '?' !in enc(x) && dec(PlusToSpace(enc(x))) == x
  }

  /** With such a codec, parsing the serialization gives the list back. */
  lemma ParseSerialize(ps: seq<Pair>, enc: string -> string, dec: string -> string)
    requires Inverse(enc, dec)
    ensures Parse(Serialize(ps, enc), dec) == ps
  {
    var fs := Fields(ps, enc);
    if ps == [] {
      assert Serialize(ps, enc) == "";
    } else {
      forall i | 0 <= i < |fs|
        ensures '&' !in fs[i]
      {
        FieldNoAmp(ps[i], enc, dec);
      }
      SplitJoin(fs, '&');
      assert Serialize(ps, enc) == Join(fs, ['&']);
      FieldStart(ps[0], enc, dec);
      ParseFields(ps, enc, dec);
    }
  }

  /** A serialized pair holds no `&`. */
  lemma FieldNoAmp(x: Pair, enc: string -> string, dec: string -> string)
    requires Inverse(enc, dec)
    ensures '&' !in enc(x.0) + "=" + enc(x.1)
  {
    assert '&' !in enc(x.0) && '&' !in enc(x.1);
  }

  /** A serialized pair does not start with `?`. */
  lemma FieldStart(x: Pair, enc: string -> string, dec: string -> string)
    requires Inverse(enc, dec)
    ensures (enc(x.0) + "=" + enc(x.1))[0] != '?'
  {
    var f := enc(x.0) + "=" + enc(x.1);
    if |enc(x.0)| > 0 {
      assert f[0] == enc(x.0)[0];
      assert '?' !in enc(x.0);
    }
  }

  /** Parsing one serialized pair gives the pair back. */
  lemma ParseField(x: Pair, enc: string -> string, dec: string -> string)
    requires Inverse(enc, dec)
    ensures ParsePiece(enc(x.0) + "=" + enc(x.1), dec) == x
  {
    var n, v := enc(x.0), enc(x.1);
    assert '=' !in n && '=' !in v;
    FirstIndexAfter(n, '=', v);
    var f := n + "=" + v;
    assert f == n + ['='] + v;
    assert f[..|n|] == n;
    assert f[|n| + 1..] == v;
  }

  /** Parsing the serialized pairs, as pieces, gives the pairs back. */
  lemma {:induction false} ParseFields(ps: seq<Pair>, enc: string -> string, dec: string -> string)
    requires Inverse(enc, dec)
    ensures ParsePieces(Fields(ps, enc), dec) == ps
  {
    if ps != [] {
      var fs := Fields(ps, enc);
      assert fs[0] != "";
      assert fs[1..] == Fields(ps[1..], enc);
      ParseField(ps[0], enc, dec);
      ParseFields(ps[1..], enc, dec);
    }
  }
}
