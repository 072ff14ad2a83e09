/** The token encoder: `generateTransformationString` turns the options into
    `tr:` followed by comma-separated tokens, one per present option, in a
    fixed order. */
module Encoder {
  import opened Options
  import opened Strings

  /** The number of tests the encoder makes: every key except `BorderColor`,
      which only feeds the border token. */
  const Slots := 21

  /** The key tested by the encoder's `i`-th `if`: the emission order. */
  function KeyAtRank(i: nat): (k: Key)
    requires i < Slots
    ensures k != BorderColor
  {
    match i
    case 0 => Height
    case 1 => Width
    case 2 => AspectRatio
    case 3 => Quality
    case 4 => Format
    case 5 => Rotation
    case 6 => Crop
    case 7 => Focus
    case 8 => Blur
    case 9 => Sharpen
    case 10 => Radius
    case 11 => Border
    case 12 => Brightness
    case 13 => Contrast
    case 14 => Saturation
    case 15 => Hue
    case 16 => Gamma
    case 17 => Grayscale
    case 18 => Sepia
    case 19 => Progressive
    case _ => Lossless
  }

  /** The position of a key in the emission order (`Slots` for `BorderColor`,
      which is never tested on its own). */
  function Rank(k: Key): (r: nat)
    ensures k != BorderColor ==> r < Slots && KeyAtRank(r) == k
    ensures k == BorderColor ==> r == Slots
  {
    match k
    case Height => 0
    case Width => 1
    case AspectRatio => 2
    case Quality => 3
    case Format => 4
    case Rotation => 5
    case Crop => 6
    case Focus => 7
    case Blur => 8
    case Sharpen => 9
    case Radius => 10
    case Border => 11
    case Brightness => 12
    case Contrast => 13
    case Saturation => 14
    case Hue => 15
    case Gamma => 16
    case Grayscale => 17
    case Sepia => 18
    case Progressive => 19
    case Lossless => 20
    case BorderColor => 21
  }

  lemma RankOfKeyAtRank(i: nat)
    requires i < Slots
    ensures Rank(KeyAtRank(i)) == i
  {
  }

  /** `transformations.borderColor || '000000'`. */
  function BorderColorOr(p: Params): (r: string)
    ensures r != ""
    ensures Present(p, BorderColor) ==> r == Show(p[BorderColor])
    ensures !Present(p, BorderColor) ==> r == "000000"
  {
    if Present(p, BorderColor) then Show(p[BorderColor]) else "000000"
  }

  /** The token pushed for a present key. */
  function TokenFor(p: Params, k: Key): (r: string)
    requires Present(p, k) && k != BorderColor
    ensures TokenKey(r) == Some(k)
  {
    match k
    case Height => "h-" + Show(p[k])
    case Width => "w-" + Show(p[k])
    case AspectRatio => "ar-" + Show(p[k])
    case Quality => "q-" + Show(p[k])
    case Format => "f-" + Show(p[k])
    case Rotation => "rt-" + Show(p[k])
    case Crop => "c-" + Show(p[k])
    case Focus => "fo-" + Show(p[k])
    case Blur => "bl-" + Show(p[k])
    case Sharpen => "e-sharpen-" + Show(p[k])
    case Radius => "r-" + Show(p[k])
    case Border => "b-" + Show(p[k]) + "_" + BorderColorOr(p)
    case Brightness => "e-brightness-" + Show(p[k])
    case Contrast => "e-contrast-" + Show(p[k])
    case Saturation => "e-saturation-" + Show(p[k])
    case Hue => "e-hue-" + Show(p[k])
    case Gamma => "e-gamma-" + Show(p[k])
    case Grayscale => "e-grayscale"
    case Sepia => "e-sepia"
    case Progressive => "pr-true"
    case Lossless => "lo-true"
  }

  /** What one `if` of the encoder pushes: the key's token when it is present. */
  function Emit(p: Params, k: Key): seq<string>
    requires k != BorderColor
  {
    if Present(p, k) then [TokenFor(p, k)] else []
  }

  /** The tokens pushed by the first `n` tests of the encoder. */
  function TokensUpTo(p: Params, n: nat): seq<string>
    requires n <= Slots
  {
    if n == 0 then [] else TokensUpTo(p, n - 1) + Emit(p, KeyAtRank(n - 1))
  }

  /** The whole `params` array of the encoder. */
  function Tokens(p: Params): seq<string>
  {
    TokensUpTo(p, Slots)
  }

  /** The string the encoder returns. */
  function Encode(p: Params): (r: string)
    ensures r == "" <==> Tokens(p) == []
    ensures r != "" ==> |r| >= 3 && r[..3] == "tr:"
  {
    var ts := Tokens(p);
    if |ts| > 0 then "tr:" + Join(ts, ",") else ""
  }

  /** `generateTransformationString`. The source tests the keys one after
      the other in the order of `KeyAtRank` and pushes each present key's
      token (`TokenFor`); here those 21 guarded pushes are one loop over that
      table. Then come the `tr:` prefix and the comma join. */
  method GenerateTransformationString(t: Params) returns (s: string)
    ensures s == Encode(t)
  {
    var params: seq<string> := [];
    for i := 0 to Slots
      invariant params == TokensUpTo(t, i)
    {
      var k := KeyAtRank(i);
      assert TokensUpTo(t, i + 1) == params + Emit(t, k);
      if Present(t, k) {
        params := params + [TokenFor(t, k)];
      }
    }
    s := if |params| > 0 then "tr:" + Join(params, ",") else "";
  }

  /** The key a token was made for, read from its leading characters: the
      short name before the first `-`, and for an `e-` token the first two
      letters of the effect name, are different for every key. */
  function TokenKey(t: string): Option<Key>
  {
    if |t| < 3 then None
    else if t[1] == '-' then
      match t[0]
      case 'h' => Some(Height)
      case 'w' => Some(Width)
      case 'q' => Some(Quality)
      case 'f' => Some(Format)
      case 'c' => Some(Crop)
      case 'r' => Some(Radius)
      case 'b' => Some(Border)
      case 'e' => if |t| < 4 then None else EffectKey(t[2], t[3])
      case _ => None
    else if t[2] == '-' then
      match [t[0], t[1]]
      case "ar" => Some(AspectRatio)
      case "rt" => Some(Rotation)
      case "fo" => Some(Focus)
      case "bl" => Some(Blur)
      case "pr" => Some(Progressive)
      case "lo" => Some(Lossless)
      case _ => None
    else None
  }

  /** The effect named by the first two letters after `e-`. */
  function EffectKey(c0: char, c1: char): Option<Key>
  {
    match [c0, c1]
    case "sh" => Some(Sharpen)
    case "br" => Some(Brightness)
    case "co" => Some(Contrast)
    case "sa" => Some(Saturation)
    case "hu" => Some(Hue)
    case "ga" => Some(Gamma)
    case "gr" => Some(Grayscale)
    case "se" => Some(Sepia)
    case _ => None
  }

  /** The keys the first `n` tests of the encoder find present, in test order. */
  ghost function KeysUpTo(p: Params, n: nat): seq<Key>
    requires n <= Slots
  {
    if n == 0 then []
    else KeysUpTo(p, n - 1) + (if Present(p, KeyAtRank(n - 1)) then [KeyAtRank(n - 1)] else [])
  }

  /** The `i`-th token is the token of the `i`-th present key. */
  lemma {:induction false} TokensUpToKeys(p: Params, n: nat)
    requires n <= Slots
    ensures |TokensUpTo(p, n)| == |KeysUpTo(p, n)|
    ensures forall i :: 0 <= i < |KeysUpTo(p, n)| ==>
              var k := KeysUpTo(p, n)[i];
              k != BorderColor && Present(p, k) && Rank(k) < n && TokensUpTo(p, n)[i] == TokenFor(p, k)
  {
    if n > 0 {
      TokensUpToKeys(p, n - 1);
      RankOfKeyAtRank(n - 1);
      var ks, ts := KeysUpTo(p, n - 1), TokensUpTo(p, n - 1);
      assert forall i :: 0 <= i < |ks| ==> KeysUpTo(p, n)[i] == ks[i] && TokensUpTo(p, n)[i] == ts[i];
    }
  }

  /** The present keys are found in strictly increasing rank. */
  lemma {:induction false} KeysUpToOrdered(p: Params, n: nat)
    requires n <= Slots
    ensures forall i :: 0 <= i < |KeysUpTo(p, n)| ==> Rank(KeysUpTo(p, n)[i]) < n
    ensures forall i, j :: 0 <= i < j < |KeysUpTo(p, n)| ==> Rank(KeysUpTo(p, n)[i]) < Rank(KeysUpTo(p, n)[j])
  {
    if n > 0 {
      KeysUpToOrdered(p, n - 1);
      RankOfKeyAtRank(n - 1);
      var ks := KeysUpTo(p, n - 1);
      assert forall i :: 0 <= i < |ks| ==> KeysUpTo(p, n)[i] == ks[i];
    }
  }

  /** Every present key tested so far is found. */
  lemma {:induction false} KeysUpToComplete(p: Params, n: nat)
    requires n <= Slots
    ensures forall k :: k != BorderColor && Present(p, k) && Rank(k) < n ==> k in KeysUpTo(p, n)
  {
    if n > 0 {
      KeysUpToComplete(p, n - 1);
      forall k | k != BorderColor && Present(p, k) && Rank(k) < n
        ensures k in KeysUpTo(p, n)
      {
        if Rank(k) == n - 1 {
          assert KeyAtRank(n - 1) == k;
        }
      }
    }
  }

  /** The fixed emission order: every token of the encoder is the token of a
      present key (never `BorderColor`), the keys of successive tokens have
      strictly increasing rank, so no key is emitted twice, and every present
      key other than `BorderColor` is emitted. */
  lemma TokensInFixedOrder(p: Params)
    ensures forall i :: 0 <= i < |Tokens(p)| ==>
              TokenKey(Tokens(p)[i]).Some?
              && var k := TokenKey(Tokens(p)[i]).value;
                 k != BorderColor && Present(p, k) && Tokens(p)[i] == TokenFor(p, k)
    ensures forall i, j :: 0 <= i < j < |Tokens(p)| ==>
              TokenKey(Tokens(p)[i]).Some? && TokenKey(Tokens(p)[j]).Some?
              && Rank(TokenKey(Tokens(p)[i]).value) < Rank(TokenKey(Tokens(p)[j]).value)
    ensures forall k :: k != BorderColor ==>
              (Present(p, k) <==> exists i :: 0 <= i < |Tokens(p)| && TokenKey(Tokens(p)[i]) == Some(k))
  {
    var ts, ks := Tokens(p), KeysUpTo(p, Slots);
    TokensUpToKeys(p, Slots);
    KeysUpToOrdered(p, Slots);
    KeysUpToComplete(p, Slots);
    forall i | 0 <= i < |ts|
      ensures TokenKey(ts[i]) == Some(ks[i])
    {
      assert ts[i] == TokenFor(p, ks[i]);
    }
    forall k | k != BorderColor && Present(p, k)
      ensures exists i :: 0 <= i < |ts| && TokenKey(ts[i]) == Some(k)
    {
      var i :| 0 <= i < |ks| && ks[i] == k;
      assert TokenKey(ts[i]) == Some(k);
    }
  }

  /** The present keys of rank below `n`. */
  ghost function PresentBelow(p: Params, n: nat): set<Key>
  {
    set k | k in p && Truthy(p[k]) && Rank(k) < n
  }

  /** Test `n - 1` adds its key to the present keys below it, when present. */
  lemma PresentBelowStep(p: Params, n: nat)
    requires 0 < n <= Slots
    ensures KeyAtRank(n - 1) !in PresentBelow(p, n - 1)
    ensures PresentBelow(p, n) == PresentBelow(p, n - 1)
              + (if Present(p, KeyAtRank(n - 1)) then {KeyAtRank(n - 1)} else {})
  {
    var k := KeyAtRank(n - 1);
    RankOfKeyAtRank(n - 1);
    assert forall j :: Rank(j) == n - 1 ==> j == k;
  }

  /** The first `n` tests find each present key among them once. */
  lemma {:induction false} KeysUpToCount(p: Params, n: nat)
    requires n <= Slots
    ensures |KeysUpTo(p, n)| == |PresentBelow(p, n)|
  {
    if n == 0 {
      assert PresentBelow(p, n) == {};
    } else {
      KeysUpToCount(p, n - 1);
      PresentBelowStep(p, n);
    }
  }

  /** The badge count is the number of tokens, plus one when `borderColor` is
      set, since that field feeds the border token instead of a token of its
      own. So the tokens number at most the count and at least the count less
      one, and a count of zero means an empty transformation string. */
  lemma CountVsTokens(p: Params)
    ensures TransformationCount(p) == |Tokens(p)| + (if Present(p, BorderColor) then 1 else 0)
    ensures |Tokens(p)| <= TransformationCount(p) <= |Tokens(p)| + 1
    ensures TransformationCount(p) == 0 ==> Encode(p) == ""
  {
    KeysUpToCount(p, Slots);
    TokensUpToKeys(p, Slots);
    if Present(p, BorderColor) {
      assert TruthyKeys(p) == PresentBelow(p, Slots) + {BorderColor};
    } else {
      assert TruthyKeys(p) == PresentBelow(p, Slots);
    }
  }

  /** The transformation string is empty exactly when no key other than
      `borderColor` is present, and is otherwise `tr:` followed by the tokens
      joined with commas. */
  lemma EncodeEmptyIff(p: Params)
    ensures Encode(p) == "" <==> forall k :: k != BorderColor ==> !Present(p, k)
    ensures Encode(p) != "" ==> Encode(p) == "tr:" + Join(Tokens(p), ",")
  {
    TokensInFixedOrder(p);
    if Tokens(p) != [] {
      assert TokenKey(Tokens(p)[0]).Some?;
    }
  }

  /** Every present key other than `borderColor` has its token emitted. */
  lemma TokenEmitted(p: Params, k: Key)
    requires Present(p, k) && k != BorderColor
    ensures TokenFor(p, k) in Tokens(p)
  {
    TokensUpToKeys(p, Slots);
    KeysUpToComplete(p, Slots);
    var i :| 0 <= i < |KeysUpTo(p, Slots)| && KeysUpTo(p, Slots)[i] == k;
    assert Tokens(p)[i] == TokenFor(p, k);
  }

  /** A value of `"0"`, as a slider gives, is truthy: the field is present
      and its token is emitted, e.g. `bl-0`. */
  lemma ZeroIsPresent(p: Params)
    ensures Present(Update(p, Blur, Str("0")), Blur)
    ensures "bl-0" in Tokens(Update(p, Blur, Str("0")))
  {
    var q := Update(p, Blur, Str("0"));
    TokenEmitted(q, Blur);
    assert TokenFor(q, Blur) == "bl-0";
  }

  /** The border token: present with `border`, coloured with `borderColor` or
      `000000` when none is set. */
  lemma BorderToken(p: Params)
    requires Present(p, Border)
    ensures "b-" + Show(p[Border]) + "_" + (if Present(p, BorderColor) then Show(p[BorderColor]) else "000000") in Tokens(p)
  {
    TokenEmitted(p, Border);
  }

  /** Two options that agree on the tokens each test emits encode alike. */
  lemma {:induction false} TokensUpToAgree(p: Params, q: Params, n: nat)
    requires n <= Slots
    requires forall i :: 0 <= i < n ==> Emit(p, KeyAtRank(i)) == Emit(q, KeyAtRank(i))
    ensures TokensUpTo(p, n) == TokensUpTo(q, n)
  {
    if n > 0 {
      TokensUpToAgree(p, q, n - 1);
    }
  }

  /** A `borderColor` set without a `border` emits nothing. */
  lemma BorderColorAlone(p: Params, v: Value)
    requires !Present(p, Border)
    ensures Encode(Update(p, BorderColor, v)) == Encode(p)
  {
    var q := Update(p, BorderColor, v);
    forall i | 0 <= i < Slots
      ensures Emit(p, KeyAtRank(i)) == Emit(q, KeyAtRank(i))
    {
      var k := KeyAtRank(i);
      assert Present(p, k) <==> Present(q, k);
      if Present(p, k) && k != Border {
        assert p[k] == q[k];
      }
      EmitAgree(p, q, k);
    }
    TokensUpToAgree(p, q, Slots);
  }

  /** The encoder reads only the present fields: options with the same present
      fields and values encode alike, however absent fields are stored. */
  lemma EncodeDependsOnPresentFields(p: Params, q: Params)
    requires forall k :: (Present(p, k) <==> Present(q, k)) && (Present(p, k) ==> p[k] == q[k])
    ensures Encode(p) == Encode(q)
  {
    assert BorderColorOr(p) == BorderColorOr(q);
    forall i | 0 <= i < Slots
      ensures Emit(p, KeyAtRank(i)) == Emit(q, KeyAtRank(i))
    {
      EmitAgree(p, q, KeyAtRank(i));
    }
    TokensUpToAgree(p, q, Slots);
  }

  /** One test of the encoder emits alike for two options that agree on the
      key, and on the border colour when the key is `border`. */
  lemma EmitAgree(p: Params, q: Params, k: Key)
    requires k != BorderColor
    requires Present(p, k) <==> Present(q, k)
    requires Present(p, k) ==> p[k] == q[k]
    requires k == Border && Present(p, k) ==> BorderColorOr(p) == BorderColorOr(q)
    ensures Emit(p, k) == Emit(q, k)
  {
  }

  /** The encoder output depends only on the last value given to each field,
      not on the order in which fields were edited. */
  lemma EncodeIgnoresEditOrder(p: Params, e1: seq<Edit>, e2: seq<Edit>)
    requires forall k :: LastEdit(e1, k) == LastEdit(e2, k)
    ensures Encode(ApplyEdits(p, e1)) == Encode(ApplyEdits(p, e2))
  {
    EditOrderIrrelevant(p, e1, e2);
  }

  /** A boolean flag contributes its bare token only while it is true: setting
      it to `true` emits its token once, setting it back to `false` removes it. */
  lemma FlagToggle(p: Params, k: Key)
    requires IsFlag(k)
    ensures TokenFor(Update(p, k, Bool(true)), k) in Tokens(Update(p, k, Bool(true)))
    ensures forall i :: 0 <= i < |Tokens(Update(p, k, Bool(false)))| ==>
              TokenKey(Tokens(Update(p, k, Bool(false)))[i]) != Some(k)
  {
    var on, off := Update(p, k, Bool(true)), Update(p, k, Bool(false));
    TokenEmitted(on, k);
    TokensUpToKeys(off, Slots);
    forall i | 0 <= i < |Tokens(off)|
      ensures TokenKey(Tokens(off)[i]) != Some(k)
    {
      assert Tokens(off)[i] == TokenFor(off, KeysUpTo(off, Slots)[i]);
    }
  }

  /** A token holds a comma only when a value it shows does. */
  lemma TokenForNoComma(p: Params, k: Key)
    requires Present(p, k) && k != BorderColor
    requires forall j :: Present(p, j) ==> ',' !in Show(p[j])
    ensures ',' !in TokenFor(p, k)
  {
  }

  /** When no value holds a comma, splitting the transformation string after
      its `tr:` prefix at the commas gives back exactly the emitted tokens. */
  lemma EncodeSplits(p: Params)
    requires forall j :: Present(p, j) ==> ',' !in Show(p[j])
    ensures Encode(p) != "" ==> Split(Encode(p)[3..], ',') == Tokens(p)
  {
    var ts := Tokens(p);
    if ts != [] {
      TokensUpToKeys(p, Slots);
      forall i | 0 <= i < |ts|
        ensures ',' !in ts[i]
      {
        TokenForNoComma(p, KeysUpTo(p, Slots)[i]);
      }
      assert Encode(p)[3..] == Join(ts, [',']);
      SplitJoin(ts, ',');
    }
  }
}
