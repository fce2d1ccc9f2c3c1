/**
 * Flag values as they appear on the command line (guild/flag_util.py):
 * their text encoding, their decoding, the `name[a:b:c]` flag-function
 * syntax, and the `name=value` formatting used when flags are shown.
 *
 * YAML dumping and loading, `float()`, `int()` and `repr()` are not part of
 * this model; they are the fields of a `Codec` that every operation takes.
 */
module FlagUtil {
  import opened Wrappers
  import opened Strings
  import opened StringOrder

  /** Bit pattern of an IEEE 754 double; floats are only ever passed through. */
  type FloatBits = bv64

  /** The Python values a flag can hold. */
  datatype FlagVal =
    | Bool(b: bool)
    | Null
    | Int(i: int)
    | Float(bits: FloatBits)
    | Str(s: string)
    | List(items: seq<FlagVal>)
      /** A dict with string keys, in insertion order. */
    | Dict(entries: seq<(string, FlagVal)>)
      /** Any other value, carrying what `str()` gives for it. */
    | Other(text: string)

  /**
   * The library functions the module calls.
   *   dumpFloat, dumpStr: `yaml.safe_dump` of a float or a str, before stripping;
   *   load: `yaml.safe_load`, None where it raises;
   *   isFloat: whether `float(s)` accepts s;
   *   parseInt: `int(s)`, None where it raises ValueError;
   *   repr: `repr(s)` of a str.
   */
  datatype Codec = Codec(
    dumpFloat: FloatBits -> string,
    dumpStr: string -> string,
    load: string -> Option<FlagVal>,
    isFloat: string -> bool,
    parseInt: string -> Option<int>,
    repr: string -> string)

  // ---------------------------------------------------------------- encoding

  function DecimalDigit(d: nat): (c: char)
    requires d < 10
    ensures '0' <= c <= '9'
  {
    (48 + d) as char
  }

  /** `str(n)` for a natural number. */
  function NatToDecimal(n: nat): (r: string)
    ensures r != []
    ensures forall k :: 0 <= k < |r| ==> '0' <= r[k] <= '9'
    ensures r[0] == '0' ==> n == 0
  {
    if n < 10 then [DecimalDigit(n)] else NatToDecimal(n / 10) + [DecimalDigit(n % 10)]
  }

  /** The number a run of decimal digits denotes. */
  function DigitsValue(s: string): nat
    requires forall k :: 0 <= k < |s| ==> '0' <= s[k] <= '9'
  {
    if s == [] then 0 else 10 * DigitsValue(s[..|s| - 1]) + (s[|s| - 1] as int - '0' as int)
  }

  /** `str(n)` spells out n: its digits denote n. */
  lemma {:induction false} NatToDecimalValue(n: nat)
    ensures DigitsValue(NatToDecimal(n)) == n
  {
    if n >= 10 {
      NatToDecimalValue(n / 10);
      var r := NatToDecimal(n);
      assert r[..|r| - 1] == NatToDecimal(n / 10);
    }
  }

  /**
   * `str(i)` for an int: a '-' exactly when i is negative, then the decimal
   * digits of |i|, without leading zeros.
   */
  function IntToDecimal(i: int): (r: string)
    ensures r != []
    ensures i < 0 <==> r[0] == '-'
    ensures var digits := if i < 0 then r[1..] else r;
      && digits != []
      && (forall k :: 0 <= k < |digits| ==> '0' <= digits[k] <= '9')
      && DigitsValue(digits) == (if i < 0 then -i else i)
      && (digits[0] == '0' ==> i == 0)
  {
    if i < 0 then
      NatToDecimalValue(-i);
      assert ("-" + NatToDecimal(-i))[1..] == NatToDecimal(-i);
      "-" + NatToDecimal(-i)
    else
      NatToDecimalValue(i);
      NatToDecimal(i)
  }

  /** Drops the YAML document-end marker that `safe_dump` adds after a scalar. */
  function StripYaml(s: string): (r: string)
    ensures EndsWith(s, "\n...") ==> r + "\n..." == s
    ensures !EndsWith(s, "\n...") ==> r == s
  {
    if EndsWith(s, "\n...") then s[..|s| - 4] else s
  }

  /** `_yaml_encode`: the dump stripped of surrounding whitespace, then of a trailing document-end marker. */
  function YamlEncode(dumped: string): (r: string)
    ensures var t := Strip(dumped);
      && StartsWith(t, r)
      && (EndsWith(t, "\n...") ==> r + "\n..." == t)
      && (!EndsWith(t, "\n...") ==> r == t)
  {
    StripYaml(Strip(dumped))
  }

  /** Quotes text that would otherwise read back as a float. */
  function QuoteFloat(c: Codec, s: string): (r: string)
    ensures c.isFloat(s) ==> r == "'" + s + "'"
    ensures !c.isFloat(s) ==> r == s
  {
    if c.isFloat(s) then "'" + s + "'" else s
  }

  /** `_encode_str`: the YAML encoding, quoted when it would read back as a float. */
  function EncodeStr(c: Codec, s: string): (r: string)
    ensures var y := YamlEncode(c.dumpStr(s));
      && (c.isFloat(y) ==> r == "'" + y + "'")
      && (!c.isFloat(y) ==> r == y)
  {
    QuoteFloat(c, YamlEncode(c.dumpStr(s)))
  }

  /**
   * `encode_flag_val`: booleans as `yes`/`no`, None as `null`, a list in
   * brackets, a dict in braces, a float and a str through YAML, and any
   * other value (an int among them) as `str()` gives it.
   */
  function EncodeFlagVal(c: Codec, v: FlagVal): (r: string)
    ensures v.Bool? ==> r == (if v.b then "yes" else "no")
    ensures v.Null? ==> r == "null"
    ensures v.Int? ==> r == IntToDecimal(v.i)
    ensures v.Float? ==> r == YamlEncode(c.dumpFloat(v.bits))
    ensures v.Str? ==> r == EncodeStr(c, v.s)
    ensures v.Other? ==> r == v.text
    ensures v.List? ==> |r| >= 2 && r[0] == '[' && r[|r| - 1] == ']'
    ensures v.Dict? ==> |r| >= 2 && r[0] == '{' && r[|r| - 1] == '}'
    decreases v, 3
  {
    match v
    case Bool(b) => if b then "yes" else "no"
    case Null => "null"
    case List(items) => EncodeList(c, items)
    case Float(bits) => YamlEncode(c.dumpFloat(bits))
    case Str(s) => EncodeStr(c, s)
    case Dict(entries) => EncodeDict(c, entries, v)
    case Int(i) => IntToDecimal(i)
    case Other(text) => text
  }

  function EncodeList(c: Codec, items: seq<FlagVal>): (r: string)
    ensures |r| >= 2 && r[0] == '[' && r[|r| - 1] == ']'
    ensures items == [] ==> r == "[]"
    decreases items, 1
  {
    "[" + Join(", ", EncodeItems(c, items)) + "]"
  }

  /** The encodings of the items, in order. */
  function EncodeItems(c: Codec, items: seq<FlagVal>): (r: seq<string>)
    ensures |r| == |items|
    decreases items, 0
  {
    if items == [] then [] else [EncodeFlagVal(c, items[0])] + EncodeItems(c, items[1..])
  }

  /** One `key: value` item of a dict encoding. */
  function EncodeEntry(c: Codec, e: (string, FlagVal), ghost parent: FlagVal): string
    requires e.1 < parent
    decreases parent, 0
  {
    EncodeStr(c, e.0) + ": " + EncodeFlagVal(c, e.1)
  }

  /** The `key: value` items of the entries, in order. */
  function EncodeEntries(c: Codec, es: seq<(string, FlagVal)>, ghost parent: FlagVal): (r: seq<string>)
    requires forall i :: 0 <= i < |es| ==> es[i].1 < parent
    ensures |r| == |es|
    decreases parent, 1, |es|
  {
    if es == [] then [] else [EncodeEntry(c, es[0], parent)] + EncodeEntries(c, es[1..], parent)
  }

  /** `ghost parent` is the dict being encoded; it only bounds the recursion. */
  function EncodeDict(c: Codec, entries: seq<(string, FlagVal)>, ghost parent: FlagVal): (r: string)
    requires forall e :: e in entries ==> e.1 < parent
    ensures |r| >= 2 && r[0] == '{' && r[|r| - 1] == '}'
    decreases parent, 2
  {
    var sorted := SortByKey(entries);
    assert forall i :: 0 <= i < |sorted| ==> sorted[i] in multiset(entries);
    "{" + Join(", ", EncodeEntries(c, sorted, parent)) + "}"
  }

  // ---------------------------------------------------------------- decoding

  /** The characters of `[a-zA-Z0-9_\-\.]`. */
  predicate IsNameChar(ch: char)
  {
    ('a' <= ch <= 'z') || ('A' <= ch <= 'Z') || ('0' <= ch <= '9') || ch == '_' || ch == '-' || ch == '.'
  }

  predicate AllNameChars(s: string)
  {
    forall k :: 0 <= k < |s| ==> IsNameChar(s[k])
  }

  predicate AllSpace(s: string)
  {
    forall k :: 0 <= k < |s| ==> IsSpace(s[k])
  }

  /** Length of the longest prefix of `s` made of name characters. */
  function NameRunLen(s: string): (k: nat)
    ensures k <= |s| && AllNameChars(s[..k])
    ensures k < |s| ==> !IsNameChar(s[k])
  {
    if s != [] && IsNameChar(s[0]) then
      assert s[..1 + NameRunLen(s[1..])] == [s[0]] + s[1..][..NameRunLen(s[1..])];
      1 + NameRunLen(s[1..])
    else 0
  }

  /**
   * `FUNCTION_P.match(s)`, the pattern `([a-zA-Z0-9_\-\.]*)\[(.*)\]\s*$`:
   * the two groups, or None when `s` does not match.
   */
  function MatchFunction(s: string): (r: Option<(string, string)>)
    ensures r.Some? ==>
      var (name, inner) := r.value;
      |name| + |inner| + 2 <= |s| &&
      s == name + "[" + inner + "]" + s[|name| + |inner| + 2..] &&
      AllNameChars(name) && '\n' !in inner && AllSpace(s[|name| + |inner| + 2..])
  {
    var k := NameRunLen(s);
    if k < |s| && s[k] == '[' then
      var rest := RStrip(s[k + 1..]);
      if rest != [] && rest[|rest| - 1] == ']' && '\n' !in rest[..|rest| - 1] then
        MatchFunctionShape(s, k, rest);
        Some((s[..k], rest[..|rest| - 1]))
      else None
    else None
  }

  /** The name run, '[', the text up to the last non-space ']' and the trailing whitespace make up `s`. */
  lemma MatchFunctionShape(s: string, k: nat, rest: string)
    requires k < |s| && AllNameChars(s[..k]) && s[k] == '['
    requires rest == RStrip(s[k + 1..])
    requires rest != [] && rest[|rest| - 1] == ']' && '\n' !in rest[..|rest| - 1]
    ensures var name, inner := s[..k], rest[..|rest| - 1];
      |name| + |inner| + 2 <= |s| &&
      s == name + "[" + inner + "]" + s[|name| + |inner| + 2..] &&
      AllNameChars(name) && '\n' !in inner && AllSpace(s[|name| + |inner| + 2..])
  {
    var name, inner := s[..k], rest[..|rest| - 1];
    var t := s[k + 1..];
    var j := k + 1 + |rest|;
    assert rest == inner + "]";
    assert t == rest + s[j..];
    forall i | 0 <= i < |s[j..]| ensures IsSpace(s[j..][i]) {
      assert s[j..][i] == t[|rest| + i];
    }
    calc {
      s;
      name + [s[k]] + t;
      name + "[" + (inner + "]" + s[j..]);
      { ConcatAssoc(name + "[", inner + "]", s[j..]); }
      name + "[" + (inner + "]") + s[j..];
      { ConcatAssoc(name + "[", inner, "]"); }
      name + "[" + inner + "]" + s[j..];
    }
  }

  /** The `:`-separated pieces of the bracketed text, before each is stripped. */
  function ArgPieces(inner: string): (pieces: seq<string>)
    ensures forall p :: p in pieces ==> |p| <= |inner|
  {
    var raw := Strip(inner);
    if raw == "" then [] else SplitOn(raw, ':')
  }

  /** Text form of a flag value read back; never fails. */
  function DecodeFlagVal(c: Codec, s: string): (r: FlagVal)
    ensures s == "" ==> r == Str("")
    decreases |s|, 3, 0
  {
    if s == "" then Str(s)
    else match c.parseInt(s)
      case Some(i) => Int(i)
      case None =>
        match YamlParse(c, s)
        case Some(v) => v
        case None => Str(s)
  }

  /**
   * `_yaml_parse`: text that reads as an unnamed flag function of two or more
   * arguments is kept as text; anything else goes to the loader (None where
   * `yaml.safe_load` raises).
   */
  function YamlParse(c: Codec, s: string): (r: Option<FlagVal>)
    ensures var f := DecodeFlagFunction(c, Str(s));
      && (f.Ok? && f.value.0.None? && |f.value.1| >= 2 ==> r == Some(Str(s)))
      && (!(f.Ok? && f.value.0.None? && |f.value.1| >= 2) ==> r == c.load(s))
    decreases |s|, 2, 0
  {
    match DecodeFlagFunction(c, Str(s))
    case Ok((name, args)) =>
      if name.None? && |args| >= 2 then Some(Str(s)) else c.load(s)
    case Err(_) => c.load(s)
  }

  /** A flag function's name (None when empty) and its decoded arguments, or the ValueError text. */
  function DecodeFlagFunction(c: Codec, v: FlagVal): (r: Result<(Option<string>, seq<FlagVal>), string>)
    ensures !v.Str? ==> r == Err("requires string")
    ensures v.Str? ==> (r.Err? <==> MatchFunction(v.s).None?)
    ensures v.Str? && r.Err? ==> r.error == "not a function"
    ensures r.Ok? ==> r.value.0 == (if MatchFunction(v.s).value.0 == "" then None else Some(MatchFunction(v.s).value.0))
    decreases if v.Str? then |v.s| else 0, 1, 0
  {
    if !v.Str? then Err("requires string")
    else match MatchFunction(v.s)
      case None => Err("not a function")
      case Some((name, inner)) =>
        Ok((if name == "" then None else Some(name), DecodeArgs(c, ArgPieces(inner), |v.s|)))
  }

  /**
   * The decoded arguments: one per piece, the piece stripped and decoded, in
   * order. `ghost bound` exceeds the length of every piece; it only bounds the
   * recursion.
   */
  function DecodeArgs(c: Codec, pieces: seq<string>, ghost bound: nat): (args: seq<FlagVal>)
    requires forall p :: p in pieces ==> |p| < bound
    ensures |args| == |pieces|
    ensures forall k :: 0 <= k < |pieces| ==> args[k] == DecodeFlagVal(c, Strip(pieces[k]))
    decreases bound, 0
  {
    seq(|pieces|, k requires 0 <= k < |pieces| =>
      assert pieces[k] in pieces;
      DecodeFlagVal(c, Strip(pieces[k])))
  }

  // ---------------------------------------------------------------- flag-function syntax

  lemma {:induction false} NameRunLenOf(name: string, rest: string)
    requires AllNameChars(name)
    requires rest != [] && !IsNameChar(rest[0])
    ensures NameRunLen(name + rest) == |name|
  {
    if name != [] {
      assert (name + rest)[1..] == name[1..] + rest;
      NameRunLenOf(name[1..], rest);
    }
  }

  lemma {:induction false} RStripSpaceSuffix(a: string, t: string)
    requires a != [] && !IsSpace(a[|a| - 1])
    requires AllSpace(t)
    ensures RStrip(a + t) == a
    decreases |t|
  {
    if t != [] {
      var t' := t[..|t| - 1];
      assert (a + t)[..|a + t| - 1] == a + t';
      RStripSpaceSuffix(a, t');
    } else {
      assert a + t == a;
    }
  }

  /** Every text the pattern describes is matched, with exactly its name and bracketed part. */
  lemma MatchFunctionOf(name: string, inner: string, trail: string)
    requires AllNameChars(name) && '\n' !in inner && AllSpace(trail)
    ensures MatchFunction(name + "[" + inner + "]" + trail) == Some((name, inner))
  {
    var s := name + "[" + inner + "]" + trail;
    var closed := inner + "]";
    CallPieces(name, inner, trail);
    RStripSpaceSuffix(closed, trail);
    assert closed[..|closed| - 1] == inner;
    MatchFunctionUnfold(s, |name|, closed);
  }

  /** Where `name[inner]trail` breaks: after the name run, at the '[', and after it. */
  lemma CallPieces(name: string, inner: string, trail: string)
    requires AllNameChars(name)
    ensures var s := name + "[" + inner + "]" + trail;
      && NameRunLen(s) == |name| < |s| && s[|name|] == '['
      && s[..|name|] == name && s[|name| + 1..] == (inner + "]") + trail
  {
    var s := name + "[" + inner + "]" + trail;
    assert s == name + ("[" + (inner + "]") + trail);
    NameRunLenOf(name, "[" + (inner + "]") + trail);
  }

  lemma MatchFunctionUnfold(s: string, k: nat, rest: string)
    requires NameRunLen(s) == k < |s| && s[k] == '['
    requires RStrip(s[k + 1..]) == rest
    requires rest != [] && rest[|rest| - 1] == ']' && '\n' !in rest[..|rest| - 1]
    ensures MatchFunction(s) == Some((s[..k], rest[..|rest| - 1]))
  {
    var k' := NameRunLen(s);
    assert k' == k && k' < |s| && s[k'] == '[';
    var rest' := RStrip(s[k' + 1..]);
    assert rest' == rest;
  }

  /**
   * `decode_flag_function` on any text of the form `name[inner]` followed by
   * whitespace: an empty name gives None, blank brackets give no arguments,
   * and otherwise there is one argument per `:`-separated piece, stripped
   * and decoded.
   */
  lemma DecodeFlagFunctionOf(c: Codec, name: string, inner: string, trail: string)
    requires AllNameChars(name) && '\n' !in inner && AllSpace(trail)
    ensures var r := DecodeFlagFunction(c, Str(name + "[" + inner + "]" + trail));
      r.Ok? &&
      (r.value.0 == None <==> name == "") &&
      (name != "" ==> r.value.0 == Some(name)) &&
      (Strip(inner) == "" ==> r.value.1 == []) &&
      (Strip(inner) != "" ==>
        var pieces := SplitOn(Strip(inner), ':');
        |r.value.1| == |pieces| &&
        forall k :: 0 <= k < |pieces| ==> r.value.1[k] == DecodeFlagVal(c, Strip(pieces[k])))
  {
    MatchFunctionOf(name, inner, trail);
  }

  /**
   * Conversely, whatever `decode_flag_function` accepts is a string of that
   * form: a run of name characters, `[`, text without a newline, `]`, and
   * trailing whitespace only.
   */
  lemma DecodeFlagFunctionParsed(c: Codec, v: FlagVal) returns (name: string, inner: string, trail: string)
    requires DecodeFlagFunction(c, v).Ok?
    ensures v == Str(name + "[" + inner + "]" + trail)
    ensures AllNameChars(name) && '\n' !in inner && AllSpace(trail)
    ensures DecodeFlagFunction(c, v).value.0 == (if name == "" then None else Some(name))
  {
    var m := MatchFunction(v.s);
    name, inner := m.value.0, m.value.1;
    trail := v.s[|name| + |inner| + 2..];
  }

  /** A value that is not a string is not a flag function. */
  lemma DecodeFlagFunctionRequiresString(c: Codec, v: FlagVal)
    requires !v.Str?
    ensures DecodeFlagFunction(c, v) == Err("requires string")
  {
  }

  /** Writing `name[a1:...:an]` and decoding it gives the name and the decoded pieces back. */
  lemma FunctionCallRoundTrip(c: Codec, name: string, args: seq<string>)
    requires AllNameChars(name)
    requires Join(":", args) != ""
    requires forall a :: a in args ==> ':' !in a && '\n' !in a && Strip(a) == a
    ensures var r := DecodeFlagFunction(c, Str(name + "[" + Join(":", args) + "]"));
      r.Ok? &&
      r.value.0 == (if name == "" then None else Some(name)) &&
      |r.value.1| == |args| &&
      forall k :: 0 <= k < |args| ==> r.value.1[k] == DecodeFlagVal(c, args[k])
  {
    var inner := Join(":", args);
    assert args != [];
    JoinNoNewline(args);
    JoinStripped(args);
    assert name + "[" + inner + "]" + "" == name + "[" + inner + "]";
    DecodeFlagFunctionOf(c, name, inner, "");
    SplitOnJoin(args, ':');
    forall k | 0 <= k < |args| ensures Strip(args[k]) == args[k] {
      assert args[k] in args;
    }
  }

  lemma {:induction false} JoinNoNewline(args: seq<string>)
    requires forall a :: a in args ==> '\n' !in a
    ensures '\n' !in Join(":", args)
  {
    if |args| > 1 {
      assert args[0] in args;
      assert forall a :: a in args[1..] ==> a in args;
      JoinNoNewline(args[1..]);
    } else if |args| == 1 {
      assert args[0] in args;
    }
  }

  /** Stripped pieces joined by `:` give text that is its own strip. */
  lemma JoinStripped(args: seq<string>)
    requires args != []
    requires forall a :: a in args ==> Strip(a) == a
    ensures Strip(Join(":", args)) == Join(":", args)
  {
    var s := Join(":", args);
    var first, last := args[0], args[|args| - 1];
    assert first in args && last in args;
    StrippedEnds(first);
    StrippedEnds(last);
    JoinFirst(args);
    JoinLast(args);
    if |args| == 1 {
      assert s == first;
    } else {
      assert s != [];
      if first != [] {
        assert s[0] == first[0];
      } else {
        assert s[0] == ':';
      }
      if last != [] {
        assert s[|s| - 1] == last[|last| - 1];
      } else {
        assert s[|s| - 1] == ':';
      }
    }
    StripUnchanged(s);
  }

  lemma StrippedEnds(a: string)
    requires Strip(a) == a
    ensures a == [] || (!IsSpace(a[0]) && !IsSpace(a[|a| - 1]))
  {
    if a != [] {
      var l := LStrip(a);
      assert |RStrip(l)| <= |l| <= |a|;
      assert |l| == |a|;
    }
  }

  /** The joined text starts with the first piece, or with `:` when that piece is empty. */
  lemma JoinFirst(args: seq<string>)
    requires args != []
    ensures var s := Join(":", args);
      (args[0] != [] ==> s != [] && s[0] == args[0][0]) &&
      (args[0] == [] && |args| > 1 ==> s != [] && s[0] == ':')
  {
  }

  /** The joined text ends with the last piece, or with `:` when that piece is empty. */
  lemma {:induction false} JoinLast(args: seq<string>)
    requires args != []
    ensures var s := Join(":", args); var last := args[|args| - 1];
      (last != [] ==> s != [] && s[|s| - 1] == last[|last| - 1]) &&
      (last == [] && |args| > 1 ==> s != [] && s[|s| - 1] == ':')
  {
    if |args| > 1 {
      JoinLast(args[1..]);
      assert args[1..][|args| - 2] == args[|args| - 1];
      if |args| == 2 {
        assert Join(":", args[1..]) == args[1];
      }
    }
  }

  // ---------------------------------------------------------------- encoding properties

  /** Keys in strictly ascending order, as `sorted()` leaves the items of a dict. */
  predicate StrictlyAscending<V>(t: seq<(string, V)>)
  {
    SortedByKey(t) && DistinctKeys(t)
  }

  /**
   * A dict is written as its `key: value` items joined by ", " in braces,
   * the items in ascending key order: any arrangement of its entries with
   * strictly ascending keys gives the encoding.
   */
  lemma EncodeDictAscending(c: Codec, entries: seq<(string, FlagVal)>, t: seq<(string, FlagVal)>)
    requires StrictlyAscending(t) && multiset(t) == multiset(entries)
    ensures EncodeFlagVal(c, Dict(entries)) == "{" + Join(", ", EntryTexts(c, t)) + "}"
  {
    SortByKeySorted(entries);
    SortedPermutationUnique(t, SortByKey(entries));
    EncodeDictSorted(c, entries);
  }

  /** The `key: value` texts of the items, in the given order. */
  function EntryTexts(c: Codec, t: seq<(string, FlagVal)>): (r: seq<string>)
    ensures |r| == |t|
  {
    if t == [] then [] else [EncodeStr(c, t[0].0) + ": " + EncodeFlagVal(c, t[0].1)] + EntryTexts(c, t[1..])
  }

  lemma EncodeDictSorted(c: Codec, entries: seq<(string, FlagVal)>)
    ensures EncodeFlagVal(c, Dict(entries)) == "{" + Join(", ", EntryTexts(c, SortByKey(entries))) + "}"
  {
    var v := Dict(entries);
    var sorted := SortByKey(entries);
    forall i | 0 <= i < |sorted|
      ensures sorted[i].1 < v
    {
      assert sorted[i] in multiset(entries);
      assert sorted[i] in entries;
    }
    EncodeEntriesTexts(c, sorted, v);
    assert EncodeFlagVal(c, v) == EncodeDict(c, entries, v);
  }

  lemma {:induction false} EncodeEntriesTexts(c: Codec, es: seq<(string, FlagVal)>, parent: FlagVal)
    requires forall i :: 0 <= i < |es| ==> es[i].1 < parent
    ensures EncodeEntries(c, es, parent) == EntryTexts(c, es)
  {
    if es != [] {
      EncodeEntriesTexts(c, es[1..], parent);
    }
  }

  /** A list is written as its items' encodings in order: one more item adds ", " and its encoding. */
  lemma EncodeListAppend(c: Codec, items: seq<FlagVal>, x: FlagVal)
    ensures var before := EncodeFlagVal(c, List(items));
      EncodeFlagVal(c, List(items + [x])) ==
        if items == [] then "[" + EncodeFlagVal(c, x) + "]"
        else before[..|before| - 1] + ", " + EncodeFlagVal(c, x) + "]"
  {
    EncodeItemsAppend(c, items, x);
    BracketedAppend(EncodeItems(c, items), EncodeFlagVal(c, x));
  }

  /** Bracketing a join with one more part: the closing bracket moves after ", " and the part. */
  lemma BracketedAppend(parts: seq<string>, p: string)
    ensures var before := "[" + Join(", ", parts) + "]";
      "[" + Join(", ", parts + [p]) + "]" ==
        if parts == [] then "[" + p + "]" else before[..|before| - 1] + ", " + p + "]"
  {
    if parts == [] {
      assert parts + [p] == [p];
    } else {
      var j := Join(", ", parts);
      var before := "[" + j + "]";
      calc {
        "[" + Join(", ", parts + [p]) + "]";
        { JoinAppend(", ", parts, p); }
        "[" + (j + ", " + p) + "]";
        { assert before[..|before| - 1] == "[" + j; }
        before[..|before| - 1] + ", " + p + "]";
      }
    }
  }

  lemma {:induction false} EncodeItemsAppend(c: Codec, items: seq<FlagVal>, x: FlagVal)
    ensures EncodeItems(c, items + [x]) == EncodeItems(c, items) + [EncodeFlagVal(c, x)]
  {
    if items != [] {
      assert (items + [x])[1..] == items[1..] + [x];
      EncodeItemsAppend(c, items[1..], x);
    }
  }

  /**
   * Booleans, null and ints read back as themselves, given a loader that
   * reads "yes", "no" and "null" the YAML 1.1 way and an `int()` that reads
   * `str(i)` back.
   */
  lemma ScalarRoundTrip(c: Codec, v: FlagVal)
    requires v.Bool? || v.Null? || v.Int?
    requires c.parseInt("yes") == None && c.load("yes") == Some(Bool(true))
    requires c.parseInt("no") == None && c.load("no") == Some(Bool(false))
    requires c.parseInt("null") == None && c.load("null") == Some(Null)
    requires v.Int? ==> c.parseInt(IntToDecimal(v.i)) == Some(v.i)
    ensures DecodeFlagVal(c, EncodeFlagVal(c, v)) == v
  {
    if !v.Int? {
      var t := EncodeFlagVal(c, v);
      NotAFunction(t);
      assert DecodeFlagFunction(c, Str(t)).Err?;
    }
  }

  /** Text made only of name characters has no `[` and is not a flag function. */
  lemma NotAFunction(t: string)
    requires AllNameChars(t)
    ensures MatchFunction(t) == None
  {
    assert NameRunLen(t) == |t|;
  }

  /**
   * `[a1:...:an]` with at least two arguments is kept as text when `int()`
   * rejects it, rather than handed to the YAML loader.
   */
  lemma UnnamedFunctionKeptAsText(c: Codec, args: seq<string>)
    requires |args| >= 2
    requires forall a :: a in args ==> ':' !in a && '\n' !in a && Strip(a) == a
    requires c.parseInt("[" + Join(":", args) + "]") == None
    ensures DecodeFlagVal(c, "[" + Join(":", args) + "]") == Str("[" + Join(":", args) + "]")
  {
    var t := "[" + Join(":", args) + "]";
    UnnamedCallShape(c, args);
    UnnamedListKeptAsText(c, t);
  }

  /** Two or more arguments between brackets read as an unnamed function of that many arguments. */
  lemma UnnamedCallShape(c: Codec, args: seq<string>)
    requires |args| >= 2
    requires forall a :: a in args ==> ':' !in a && '\n' !in a && Strip(a) == a
    ensures var r := DecodeFlagFunction(c, Str("[" + Join(":", args) + "]"));
      r.Ok? && r.value.0 == None && |r.value.1| == |args|
  {
    JoinSeveral(":", args);
    FunctionCallRoundTrip(c, "", args);
    Bracketed(Join(":", args));
  }

  /** An empty name in front of a bracketed text adds nothing. */
  lemma Bracketed(x: string)
    ensures "" + "[" + x + "]" == "[" + x + "]"
  {
  }

  /** Text that `int()` rejects and that reads as an unnamed function of two or more arguments is kept. */
  lemma UnnamedListKeptAsText(c: Codec, t: string)
    requires t != "" && c.parseInt(t) == None
    requires DecodeFlagFunction(c, Str(t)).Ok?
    requires DecodeFlagFunction(c, Str(t)).value.0 == None && |DecodeFlagFunction(c, Str(t)).value.1| >= 2
    ensures DecodeFlagVal(c, t) == Str(t)
  {
    assert YamlParse(c, t) == Some(Str(t));
  }

  // ---------------------------------------------------------------- float truncation

  const DefaultFloatTruncLen := 5

  predicate IsDecimal(ch: char)
  {
    '0' <= ch <= '9'
  }

  /** A match of `\.[0-9]+`: a dot and at least one digit. */
  predicate IsDecRun(p: string)
  {
    |p| >= 2 && p[0] == '.' && forall k :: 1 <= k < |p| ==> IsDecimal(p[k])
  }

  /** Text in which no decimal run begins. */
  predicate NoRunStart(t: string)
  {
    forall k :: 0 <= k < |t| - 1 ==> !(t[k] == '.' && IsDecimal(t[k + 1]))
  }

  /** Length of the longest prefix of `s` made of digits. */
  function DigitRunLen(s: string): (k: nat)
    ensures k <= |s|
    ensures forall j :: 0 <= j < k ==> IsDecimal(s[j])
    ensures k < |s| ==> !IsDecimal(s[k])
  {
    if s != [] && IsDecimal(s[0]) then 1 + DigitRunLen(s[1..]) else 0
  }

  /**
   * The list `re.split(r"(\.[0-9]+)", s)` returns, grouped: the text before
   * the first decimal run, then each run with the text that follows it.
   */
  datatype DecSplit = DecSplit(lead: string, tail: seq<(string, string)>)

  function JoinTail(tail: seq<(string, string)>): string
  {
    if |tail| == 0 then "" else tail[0].0 + tail[0].1 + JoinTail(tail[1..])
  }

  /** `"".join(parts)` of the split list. */
  function Joined(sp: DecSplit): string
  {
    sp.lead + JoinTail(sp.tail)
  }

  /** Runs are decimal runs, found leftmost and longest, and no run begins inside the text. */
  predicate WellSplit(sp: DecSplit)
  {
    NoRunStart(sp.lead) &&
    forall i :: 0 <= i < |sp.tail| ==>
      IsDecRun(sp.tail[i].0) && NoRunStart(sp.tail[i].1) &&
      (sp.tail[i].1 != [] ==> !IsDecimal(sp.tail[i].1[0]))
  }

  /** `s` starts with '.' and a digit: a decimal run begins here. */
  predicate RunStartsAt0(s: string)
  {
    |s| >= 2 && s[0] == '.' && IsDecimal(s[1])
  }

  /** Length of the decimal run at the front of `s`: the '.' and its digits. */
  function RunLen(s: string): (k: nat)
    requires RunStartsAt0(s)
    ensures 2 <= k <= |s|
    ensures forall j :: 1 <= j < k ==> IsDecimal(s[j])
    ensures k < |s| ==> !IsDecimal(s[k])
  {
    var k := 1 + DigitRunLen(s[1..]);
    assert forall j :: 1 <= j < k ==> s[j] == s[1..][j - 1];
    assert k < |s| ==> s[k] == s[1..][k - 1];
    k
  }

  /** The split of `s` whose first `k` characters are a run, given the split of the rest. */
  function AfterRun(s: string, k: nat, rest: DecSplit): DecSplit
    requires k <= |s|
  {
    DecSplit("", [(s[..k], rest.lead)] + rest.tail)
  }

  /** The split of `s` whose first character is text, given the split of the rest. */
  function ExtendText(s: string, rest: DecSplit): DecSplit
    requires s != []
  {
    DecSplit([s[0]] + rest.lead, rest.tail)
  }

  /** `re.split(r"(\.[0-9]+)", s)`, scanning left to right. */
  function SplitDecRuns(s: string): (r: DecSplit)
    ensures Joined(r) == s
    ensures StartsWith(s, r.lead)
    decreases |s|
  {
    if s == [] then DecSplit("", [])
    else if RunStartsAt0(s) then
      var k := RunLen(s);
      var rest := SplitDecRuns(s[k..]);
      JoinedAfterRun(s, k, rest);
      AfterRun(s, k, rest)
    else
      var rest := SplitDecRuns(s[1..]);
      JoinedExtendText(s, rest);
      ExtendText(s, rest)
  }

  lemma JoinedAfterRun(s: string, k: nat, rest: DecSplit)
    requires k <= |s| && Joined(rest) == s[k..]
    ensures Joined(AfterRun(s, k, rest)) == s
    ensures AfterRun(s, k, rest).lead == ""
  {
    assert ([(s[..k], rest.lead)] + rest.tail)[1..] == rest.tail;
    assert s == s[..k] + s[k..];
  }

  lemma JoinedExtendText(s: string, rest: DecSplit)
    requires s != [] && Joined(rest) == s[1..] && StartsWith(s[1..], rest.lead)
    ensures Joined(ExtendText(s, rest)) == s
    ensures StartsWith(s, ExtendText(s, rest).lead)
  {
    var n := |rest.lead|;
    calc {
      Joined(ExtendText(s, rest));
      ([s[0]] + rest.lead) + JoinTail(rest.tail);
      { ConcatAssoc([s[0]], rest.lead, JoinTail(rest.tail)); }
      [s[0]] + Joined(rest);
      [s[0]] + s[1..];
      s;
    }
    assert s[..n + 1] == [s[0]] + s[1..][..n];
  }

  lemma {:induction false} SplitDecRunsWellSplit(s: string)
    ensures WellSplit(SplitDecRuns(s))
    decreases |s|
  {
    if s == [] {
    } else if RunStartsAt0(s) {
      var k := RunLen(s);
      SplitDecRunsWellSplit(s[k..]);
      WellSplitAfterRun(s, k, SplitDecRuns(s[k..]));
    } else {
      SplitDecRunsWellSplit(s[1..]);
      WellSplitExtendText(s, SplitDecRuns(s[1..]));
    }
  }

  /** A maximal run at the front followed by a well-split rest is well split. */
  lemma WellSplitAfterRun(s: string, k: nat, rest: DecSplit)
    requires 2 <= k <= |s| && s[0] == '.'
    requires forall j :: 1 <= j < k ==> IsDecimal(s[j])
    requires k < |s| ==> !IsDecimal(s[k])
    requires StartsWith(s[k..], rest.lead) && WellSplit(rest)
    ensures WellSplit(AfterRun(s, k, rest))
  {
    var tail := [(s[..k], rest.lead)] + rest.tail;
    forall i | 0 <= i < |tail|
      ensures IsDecRun(tail[i].0) && NoRunStart(tail[i].1) && (tail[i].1 != [] ==> !IsDecimal(tail[i].1[0]))
    {
      if i > 0 {
        assert tail[i] == rest.tail[i - 1];
      } else if rest.lead != [] {
        assert rest.lead[0] == s[k..][0] == s[k];
      }
    }
  }

  /** A character that starts no run, before a well-split rest, joins the leading text. */
  lemma WellSplitExtendText(s: string, rest: DecSplit)
    requires s != [] && !RunStartsAt0(s)
    requires StartsWith(s[1..], rest.lead) && WellSplit(rest)
    ensures WellSplit(ExtendText(s, rest))
  {
    var lead := [s[0]] + rest.lead;
    forall j | 0 <= j < |lead| - 1 ensures !(lead[j] == '.' && IsDecimal(lead[j + 1])) {
      if j == 0 {
        assert lead[1] == rest.lead[0] == s[1..][0] == s[1];
      } else {
        assert lead[j] == rest.lead[j - 1] && lead[j + 1] == rest.lead[j];
      }
    }
  }


  /** `part[:m]` with Python's slice rules, where a negative m counts from the end. */
  function PyPrefix(part: string, m: int): (r: string)
    ensures StartsWith(part, r)
    ensures m >= 0 ==> |r| == if m < |part| then m else |part|
    ensures m < 0 ==> |r| == if |part| + m > 0 then |part| + m else 0
  {
    if m >= 0 then (if m < |part| then part[..m] else part)
    else (if |part| + m > 0 then part[..|part| + m] else "")
  }

  /**
   * `_maybe_truncate_dec_part`: text starting with '.' keeps at most
   * `truncLen` characters after it; anything else is left alone.
   */
  function MaybeTruncateDecPart(part: string, truncLen: int): (r: string)
    ensures StartsWith(part, r)
    ensures !StartsWith(part, ".") ==> r == part
    ensures |part| <= truncLen ==> r == part
    ensures truncLen >= 0 && StartsWith(part, ".") ==> StartsWith(r, ".") && |r| <= truncLen + 1
  {
    if PyPrefix(part, 1) != "." then part
    else if |part| <= truncLen then part
    else PyPrefix(part, truncLen + 1)
  }

  /**
   * `_truncate_formatted_float` as written: every part of the split is
   * offered for truncation, the text before the first run among them.
   */
  function TruncateFormattedFloatAsWritten(s: string, truncLen: int): (r: string)
    ensures StartsWith(r, MaybeTruncateDecPart(SplitDecRuns(s).lead, truncLen))
  {
    var sp := SplitDecRuns(s);
    MaybeTruncateDecPart(sp.lead, truncLen) +
    JoinTail(seq(|sp.tail|, i requires 0 <= i < |sp.tail| =>
      (MaybeTruncateDecPart(sp.tail[i].0, truncLen), MaybeTruncateDecPart(sp.tail[i].1, truncLen))))
  }

  /** The runs truncated, the text after each kept. */
  function TruncateRuns(tail: seq<(string, string)>, truncLen: int): (r: seq<(string, string)>)
    ensures |r| == |tail|
    ensures forall i :: 0 <= i < |tail| ==>
      r[i] == (MaybeTruncateDecPart(tail[i].0, truncLen), tail[i].1)
  {
    seq(|tail|, i requires 0 <= i < |tail| => (MaybeTruncateDecPart(tail[i].0, truncLen), tail[i].1))
  }

  /**
   * `_truncate_formatted_float` as intended: only the decimal runs that the
   * split found are truncated.
   */
  function TruncateFormattedFloat(s: string, truncLen: int): (r: string)
    ensures StartsWith(r, SplitDecRuns(s).lead)
  {
    var sp := SplitDecRuns(s);
    Joined(DecSplit(sp.lead, TruncateRuns(sp.tail, truncLen)))
  }

  /**
   * The input is the concatenation of text and decimal runs; the truncated
   * text keeps every piece of text and cuts every run to a prefix that
   * still has its '.' and at most `truncLen` digits, leaving a run of at
   * most `truncLen` digits whole.
   */
  lemma TruncateFormattedFloatShape(s: string, truncLen: nat)
    ensures var sp := SplitDecRuns(s);
      Joined(sp) == s && WellSplit(sp) &&
      exists q: seq<(string, string)> {:trigger DecSplit(sp.lead, q)} ::
        TruncateFormattedFloat(s, truncLen) == Joined(DecSplit(sp.lead, q)) && |q| == |sp.tail| &&
        forall i :: 0 <= i < |q| ==>
          q[i].1 == sp.tail[i].1 &&
          StartsWith(sp.tail[i].0, q[i].0) && StartsWith(q[i].0, ".") && |q[i].0| <= truncLen + 1 &&
          (|sp.tail[i].0| <= truncLen ==> q[i].0 == sp.tail[i].0)
  {
    var sp := SplitDecRuns(s);
    SplitDecRunsWellSplit(s);
    var q := TruncateRuns(sp.tail, truncLen);
    forall i | 0 <= i < |q| ensures StartsWith(sp.tail[i].0, ".") {
      assert IsDecRun(sp.tail[i].0);
    }
    assert TruncateFormattedFloat(s, truncLen) == Joined(DecSplit(sp.lead, q));
  }

  /** Text without any decimal run comes back unchanged. */
  lemma {:induction false} TruncateWithoutRuns(s: string, truncLen: int)
    requires NoRunStart(s)
    ensures SplitDecRuns(s) == DecSplit(s, [])
    ensures TruncateFormattedFloat(s, truncLen) == s
    decreases |s|
  {
    if s != [] {
      assert !(|s| >= 2 && s[0] == '.' && IsDecimal(s[1]));
      assert NoRunStart(s[1..]) by {
        forall k | 0 <= k < |s[1..]| - 1 ensures !(s[1..][k] == '.' && IsDecimal(s[1..][k + 1])) {
          assert s[1..][k] == s[k + 1] && s[1..][k + 1] == s[k + 2];
        }
      }
      TruncateWithoutRuns(s[1..], truncLen);
      assert [s[0]] + s[1..] == s;
    }
    assert TruncateRuns([], truncLen) == [];
  }

  /** As written, text without runs is still offered whole for truncation. */
  lemma AsWrittenWithoutRuns(s: string, truncLen: int)
    requires NoRunStart(s)
    ensures TruncateFormattedFloatAsWritten(s, truncLen) == MaybeTruncateDecPart(s, truncLen)
  {
    TruncateWithoutRuns(s, truncLen);
  }

  /**
   * The code as written agrees with the intended truncation whenever no
   * piece of text between the runs starts with '.', as in every float that
   * YAML writes in decimal or exponent form.
   */
  lemma AsWrittenAgrees(s: string, truncLen: int)
    requires var sp := SplitDecRuns(s);
      !StartsWith(sp.lead, ".") && forall i :: 0 <= i < |sp.tail| ==> !StartsWith(sp.tail[i].1, ".")
    ensures TruncateFormattedFloatAsWritten(s, truncLen) == TruncateFormattedFloat(s, truncLen)
  {
    var sp := SplitDecRuns(s);
    var offered := seq(|sp.tail|, i requires 0 <= i < |sp.tail| =>
      (MaybeTruncateDecPart(sp.tail[i].0, truncLen), MaybeTruncateDecPart(sp.tail[i].1, truncLen)));
    assert offered == TruncateRuns(sp.tail, truncLen);
  }

  /** A text part beginning with '.' is cut by the code as written: ".inf" with 2 becomes ".in". */
  lemma TruncateAsWrittenCutsText()
    ensures TruncateFormattedFloatAsWritten(".inf", 2) == ".in"
    ensures TruncateFormattedFloat(".inf", 2) == ".inf"
  {
    assert NoRunStart(".inf");
    TruncateWithoutRuns(".inf", 2);
    AsWrittenWithoutRuns(".inf", 2);
    assert PyPrefix(".inf", 1) == ".";
    assert PyPrefix(".inf", 3) == ".in";
  }

  // ---------------------------------------------------------------- formatting

  /** The `truncate_floats` argument: a bool, an int, or anything else with its truth value. */
  datatype TruncateFloats = TruncBool(b: bool) | TruncInt(n: int) | TruncOther(truthy: bool)

  /** The ValueError raised for a `truncate_floats` that is not an int. */
  datatype FormatError = InvalidTruncateFloats

  predicate Truthy(t: TruncateFloats)
  {
    match t
    case TruncBool(b) => b
    case TruncInt(n) => n != 0
    case TruncOther(truthy) => truthy
  }

  /** `_trunc_len`: True means the default length, an int (a bool is one) is the length, anything else is an error. */
  function TruncLen(t: TruncateFloats): (r: Result<int, FormatError>)
    ensures r.Err? <==> t.TruncOther?
    ensures t == TruncBool(true) ==> r == Ok(DefaultFloatTruncLen)
    ensures t == TruncBool(false) ==> r == Ok(0)
    ensures t.TruncInt? ==> r == Ok(t.n)
  {
    match t
    case TruncBool(b) => if b then Ok(DefaultFloatTruncLen) else Ok(0)
    case TruncInt(n) => Ok(n)
    case TruncOther(_) => Err(InvalidTruncateFloats)
  }

  /** A string whose encoding has a space and does not already start with a quote. */
  predicate NeedsQuote(encoded: string, v: FlagVal)
  {
    v.Str? && ' ' in encoded && encoded[0] != '\'' && encoded[0] != '"'
  }

  function QuoteEncoded(c: Codec, encoded: string, v: FlagVal): (r: string)
    ensures NeedsQuote(encoded, v) ==> r == c.repr(encoded)
    ensures !NeedsQuote(encoded, v) ==> r == encoded
  {
    if NeedsQuote(encoded, v) then c.repr(encoded) else encoded
  }

  /**
   * `format_flag`: the encoding, its decimal runs truncated when the value
   * is a float and truncation is on, then quoted if it needs it.
   */
  function FormatFlag(c: Codec, v: FlagVal, t: TruncateFloats): (r: Result<string, FormatError>)
    ensures r.Err? <==> Truthy(t) && v.Float? && t.TruncOther?
  {
    var encoded := EncodeFlagVal(c, v);
    if Truthy(t) && v.Float? then
      match TruncLen(t)
      case Err(e) => Err(e)
      case Ok(n) => Ok(QuoteEncoded(c, TruncateFormattedFloatAsWritten(encoded, n), v))
    else Ok(QuoteEncoded(c, encoded, v))
  }

  /**
   * What `format_flag` gives: the quoted encoding, a float's encoding
   * truncated as the code does it, and never a quoted non-string.
   */
  lemma FormatFlagValue(c: Codec, v: FlagVal, t: TruncateFloats)
    ensures var r := FormatFlag(c, v, t);
      && (!(Truthy(t) && v.Float?) ==> r == Ok(QuoteEncoded(c, EncodeFlagVal(c, v), v)))
      && (r.Ok? && Truthy(t) && v.Float? ==>
            r.value == TruncateFormattedFloatAsWritten(EncodeFlagVal(c, v), TruncLen(t).value))
      && (r.Ok? && !v.Str? && !v.Float? ==> r.value == EncodeFlagVal(c, v))
  {
  }

  /**
   * `format_flag` cuts the infinity YAML writes: with a truncation length
   * of 2, ".inf" is shown as ".in".
   */
  lemma FormatFlagCutsInf(c: Codec, bits: FloatBits)
    requires c.dumpFloat(bits) == ".inf\n...\n"
    ensures FormatFlag(c, Float(bits), TruncInt(2)) == Ok(".in")
  {
    assert EncodeFlagVal(c, Float(bits)) == ".inf" by { YamlEncodeInf(); }
    assert TruncLen(TruncInt(2)) == Ok(2);
    TruncateAsWrittenCutsText();
    FormatFlagValue(c, Float(bits), TruncInt(2));
  }

  /** YAML's infinity, stripped of its line break and document-end marker. */
  lemma YamlEncodeInf()
    ensures YamlEncode(".inf\n...\n") == ".inf"
  {
    var dumped, t := ".inf\n...\n", ".inf\n...";
    assert !IsSpace(dumped[0]) && LStrip(dumped) == dumped;
    assert IsSpace(dumped[|dumped| - 1]) && dumped[..|dumped| - 1] == t;
    assert !IsSpace(t[|t| - 1]) && RStrip(t) == t;
    assert Strip(dumped) == t;
    assert EndsWith(t, "\n...") && t[..|t| - 4] == ".inf";
  }

  /** `_flag_assign` over flags already in order. */
  function FormatAssigns(c: Codec, flags: seq<(string, FlagVal)>, t: TruncateFloats): (r: Result<seq<string>, FormatError>)
    ensures r.Err? <==> exists i :: 0 <= i < |flags| && FormatFlag(c, flags[i].1, t).Err?
    ensures r.Ok? ==> |r.value| == |flags|
    ensures r.Ok? ==> forall i :: 0 <= i < |flags| ==> r.value[i] == flags[i].0 + "=" + FormatFlag(c, flags[i].1, t).value
  {
    if flags == [] then Ok([])
    else
      match FormatFlag(c, flags[0].1, t)
      case Err(e) => Err(e)
      case Ok(formatted) =>
        match FormatAssigns(c, flags[1..], t)
        case Err(e) =>
          var i :| 0 <= i < |flags[1..]| && FormatFlag(c, flags[1..][i].1, t).Err?;
          assert FormatFlag(c, flags[i + 1].1, t).Err?;
          Err(e)
        case Ok(rest) =>
          FormatAssignsCons(c, flags, t, formatted, rest);
          Ok([flags[0].0 + "=" + formatted] + rest)
  }

  /** The first flag's line in front of the lines of the others: every flag formats, each on its own line. */
  lemma FormatAssignsCons(c: Codec, flags: seq<(string, FlagVal)>, t: TruncateFloats, formatted: string, rest: seq<string>)
    requires flags != [] && FormatFlag(c, flags[0].1, t) == Ok(formatted)
    requires forall i :: 0 <= i < |flags[1..]| ==> FormatFlag(c, flags[1..][i].1, t).Ok?
    requires |rest| == |flags| - 1
    requires forall i :: 0 <= i < |flags[1..]| ==> rest[i] == flags[1..][i].0 + "=" + FormatFlag(c, flags[1..][i].1, t).value
    ensures forall i :: 0 <= i < |flags| ==> FormatFlag(c, flags[i].1, t).Ok?
    ensures forall i :: 0 <= i < |flags| ==>
      ([flags[0].0 + "=" + formatted] + rest)[i] == flags[i].0 + "=" + FormatFlag(c, flags[i].1, t).value
  {
    var lines := [flags[0].0 + "=" + formatted] + rest;
    forall i | 0 <= i < |flags|
      ensures FormatFlag(c, flags[i].1, t).Ok?
      ensures lines[i] == flags[i].0 + "=" + FormatFlag(c, flags[i].1, t).value
    {
      if i > 0 {
        assert flags[i] == flags[1..][i - 1];
        assert lines[i] == rest[i - 1];
      }
    }
  }

  /** `format_flags`: one `name=value` per flag, in ascending name order. */
  function FormatFlags(c: Codec, flags: seq<(string, FlagVal)>, t: TruncateFloats): (r: Result<seq<string>, FormatError>)
    ensures r.Err? <==> Truthy(t) && t.TruncOther? && exists i :: 0 <= i < |flags| && flags[i].1.Float?
    ensures r.Ok? ==> |r.value| == |flags|
  {
    var sorted := SortByKey(flags);
    var r := FormatAssigns(c, sorted, t);
    assert r.Err? ==> exists i :: 0 <= i < |flags| && flags[i].1.Float? by {
      if r.Err? {
        var i :| 0 <= i < |sorted| && FormatFlag(c, sorted[i].1, t).Err?;
        assert sorted[i] in multiset(flags);
      }
    }
    assert (Truthy(t) && t.TruncOther? && exists i :: 0 <= i < |flags| && flags[i].1.Float?) ==> r.Err? by {
      if Truthy(t) && t.TruncOther? && exists i :: 0 <= i < |flags| && flags[i].1.Float? {
        var i :| 0 <= i < |flags| && flags[i].1.Float?;
        assert flags[i] in multiset(sorted);
        var j :| 0 <= j < |sorted| && sorted[j] == flags[i];
        assert FormatFlag(c, sorted[j].1, t).Err?;
      }
    }
    r
  }

  /**
   * `format_flags` formats the flags in ascending name order: the result
   * is FormatAssigns of any arrangement of the flags with strictly
   * ascending names, one `name=value` line per flag in that order.
   */
  lemma FormatFlagsAscending(c: Codec, flags: seq<(string, FlagVal)>, t: TruncateFloats, order: seq<(string, FlagVal)>)
    requires StrictlyAscending(order) && multiset(order) == multiset(flags)
    ensures FormatFlags(c, flags, t) == FormatAssigns(c, order, t)
  {
    SortsTo(flags, order);
  }

  lemma SortsTo(flags: seq<(string, FlagVal)>, order: seq<(string, FlagVal)>)
    requires StrictlyAscending(order) && multiset(order) == multiset(flags)
    ensures SortByKey(flags) == order
  {
    SortByKeySorted(flags);
    SortedPermutationUnique(order, SortByKey(flags));
  }
}
