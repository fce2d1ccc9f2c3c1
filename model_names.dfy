/**
 * The naming rules of guild/model.py for modelfile distributions: the
 * reversible escaping of a directory path into a project name, the
 * `.modelfile.` project names built from it, and the membership test of
 * `ModelfileNamespace` that recovers the path from such a name.
 */
module ModelNames {
  import opened Wrappers
  import opened Strings
  import Paths
  import Utf8
  import Base16

  /** The ways `_unescape_project_name` fails: both are `ValueError`s in Python. */
  datatype DecodeError =
    | Base16Failure(reason: Base16.Base16Error)
    | InvalidUtf8

  const ModelfilePrefix := ".modelfile."

  /** `_escape_project_name`: Base16 of the UTF-8 bytes of `name`. */
  function EscapeProjectName(name: string): (r: string)
    ensures |r| == 2 * |Utf8.Encode(name)|
    ensures forall i :: 0 <= i < |r| ==> Base16.IsDigit(r[i])
    ensures '/' !in r
  {
    var r := Base16.Encode(Utf8.Encode(name));
    assert forall i :: 0 <= i < |r| ==> r[i] != '/' by {
      forall i | 0 <= i < |r| ensures r[i] != '/' { assert Base16.IsDigit(r[i]); }
    }
    r
  }

  /** `_unescape_project_name`: Base16-decode, then UTF-8-decode. */
  function UnescapeProjectName(escaped: string): (r: Result<string, DecodeError>)
    ensures |escaped| % 2 == 1 ==> r.Err?
    ensures (exists i :: 0 <= i < |escaped| && !Base16.IsDigit(escaped[i])) ==> r.Err?
  {
    match Base16.Decode(escaped)
    case Err(e) => Err(Base16Failure(e))
    case Ok(bytes) =>
      match Utf8.Decode(bytes)
      case None => Err(InvalidUtf8)
      case Some(s) => Ok(s)
  }

  /** Unescaping an escaped name gives the name back. */
  lemma UnescapeEscape(name: string)
    ensures UnescapeProjectName(EscapeProjectName(name)) == Ok(name)
  {
    Base16.DecodeEncode(Utf8.Encode(name));
    Utf8.DecodeEncode(name);
  }

  /** Every token that unescapes is the escape of what it unescapes to, so escaping is a bijection onto the valid tokens. */
  lemma EscapeUnescape(escaped: string)
    requires UnescapeProjectName(escaped).Ok?
    ensures EscapeProjectName(UnescapeProjectName(escaped).value) == escaped
  {
    var bytes := Base16.Decode(escaped).value;
    Utf8.EncodeDecode(bytes);
    Base16.EncodeDecode(escaped);
  }

  lemma EscapeInjective(a: string, b: string)
    requires EscapeProjectName(a) == EscapeProjectName(b)
    ensures a == b
  {
    UnescapeEscape(a);
    UnescapeEscape(b);
  }

  /**
   * The package path of `_modelfile_project_name`, given `os.path.relpath`
   * of the modelfile's directory (which is never empty): prefixed with
   * "./" unless it already starts with '.'; an absolute path, which
   * `os.path.join` keeps as it is, is the one exception to "starts with '.'".
   */
  function PackagePath(relDir: string): (p: string)
    requires relDir != ""
    ensures relDir[0] != '/' ==> p != "" && p[0] == '.'
    ensures relDir[0] == '.' || relDir[0] == '/' ==> p == relDir
    ensures relDir[0] != '.' && relDir[0] != '/' ==> p == "./" + relDir
  {
    if relDir[0] != '.' then
      assert StartsWith(relDir, "/") <==> relDir[0] == '/' by {
        assert StartsWith(relDir, "/") ==> relDir[..1][0] == '/';
      }
      assert !EndsWith(".", "/");
      assert "." + "/" + relDir == "./" + relDir;
      Paths.Join(".", relDir)
    else
      relDir
  }

  /**
   * `_modelfile_project_name`: the prefix, then a token of Base16 digits
   * (left alone by `safe_name`) that unescapes to the package path.
   */
  function ModelfileProjectName(relDir: string): (r: string)
    requires relDir != ""
    ensures StartsWith(r, ModelfilePrefix)
    ensures forall i :: |ModelfilePrefix| <= i < |r| ==> Base16.IsDigit(r[i])
    ensures UnescapeProjectName(r[|ModelfilePrefix|..]) == Ok(PackagePath(relDir))
  {
    var p := PackagePath(relDir);
    var e := EscapeProjectName(p);
    var r := ModelfilePrefix + e;
    UnescapeToken(p);
    assert forall i :: |ModelfilePrefix| <= i < |r| ==> Base16.IsDigit(r[i]) by {
      forall i | |ModelfilePrefix| <= i < |r| ensures Base16.IsDigit(r[i]) {
        assert r[i] == e[i - |ModelfilePrefix|];
      }
    }
    r
  }

  /** The token after the prefix unescapes to the name it was made from. */
  lemma UnescapeToken(name: string)
    ensures UnescapeProjectName((ModelfilePrefix + EscapeProjectName(name))[|ModelfilePrefix|..]) == Ok(name)
  {
    var e := EscapeProjectName(name);
    assert (ModelfilePrefix + e)[|ModelfilePrefix|..] == e;
    UnescapeEscape(name);
  }

  datatype Membership = Yes | No

  /**
   * `ModelfileNamespace.is_project_name_member`: a name with the prefix is a
   * member, and what follows the prefix up to the first '/' is unescaped
   * (a malformed token is the unescape error); the rest is kept.
   */
  function IsProjectNameMember(name: string): (r: Result<(Membership, Option<string>), DecodeError>)
    ensures !StartsWith(name, ModelfilePrefix) ==> r == Ok((No, None))
    ensures r.Ok? && r.value.0 == Yes ==> StartsWith(name, ModelfilePrefix) && r.value.1.Some?
    ensures r.Ok? && r.value.0 == No ==> r.value.1 == None
  {
    if StartsWith(name, ModelfilePrefix) then
      var tail := name[11..];
      var slash := IndexOfChar(tail, '/');
      var rest := if slash < |tail| then "/" + tail[slash + 1..] else "";
      match UnescapeProjectName(tail[..slash])
      case Err(e) => Err(e)
      case Ok(projectName) => Ok((Yes, Some(projectName + rest)))
    else
      Ok((No, None))
  }

  /** A modelfile project name is a member, and the membership test recovers the package path. */
  lemma MemberOfModelfileProjectName(relDir: string)
    requires relDir != ""
    ensures IsProjectNameMember(ModelfileProjectName(relDir)) == Ok((Yes, Some(PackagePath(relDir))))
  {
    var p := PackagePath(relDir);
    var e := EscapeProjectName(p);
    var name := ModelfilePrefix + e;
    assert |ModelfilePrefix| == 11;
    assert name[..11] == ModelfilePrefix && name[11..] == e;
    NoCharIndex(e, '/');
    assert e[..|e|] == e;
    UnescapeEscape(p);
    assert p + "" == p;
  }

  /** A name under a modelfile project keeps its "/rest" after the recovered path. */
  lemma MemberWithRest(path: string, rest: string)
    ensures IsProjectNameMember(ModelfilePrefix + EscapeProjectName(path) + "/" + rest)
         == Ok((Yes, Some(path + "/" + rest)))
  {
    var e := EscapeProjectName(path);
    var name := ModelfilePrefix + e + "/" + rest;
    assert |ModelfilePrefix| == 11;
    assert name[..11] == ModelfilePrefix;
    var tail := name[11..];
    assert tail == e + "/" + rest;
    PrefixIndex(e, '/', rest);
    assert tail[..|e|] == e;
    assert tail[|e| + 1..] == rest;
    UnescapeEscape(path);
    assert path + ("/" + rest) == path + "/" + rest;
  }

  /** Conversely, every member name is the prefix, an escaped path and either nothing or "/" and more. */
  lemma MemberInverse(name: string)
    requires IsProjectNameMember(name).Ok? && IsProjectNameMember(name).value.0 == Yes
    ensures exists path: string, rest: string ::
      && (rest == "" || rest[0] == '/')
      && name == ModelfilePrefix + EscapeProjectName(path) + rest
      && IsProjectNameMember(name).value.1 == Some(path + rest)
  {
    var tail := name[11..];
    var slash := IndexOfChar(tail, '/');
    var token := tail[..slash];
    var rest := if slash < |tail| then "/" + tail[slash + 1..] else "";
    MemberParts(name);
    var path := UnescapeProjectName(token).value;
    EscapeUnescape(token);
    assert name == ModelfilePrefix + EscapeProjectName(path) + rest;
  }

  /** The pieces `is_project_name_member` cuts a prefixed name into put it back together. */
  lemma MemberParts(name: string)
    requires StartsWith(name, ModelfilePrefix)
    ensures var tail := name[11..];
      var slash := IndexOfChar(tail, '/');
      var rest := if slash < |tail| then "/" + tail[slash + 1..] else "";
      name == ModelfilePrefix + tail[..slash] + rest
  {
    assert |ModelfilePrefix| == 11;
    var tail := name[11..];
    var slash := IndexOfChar(tail, '/');
    var rest := if slash < |tail| then "/" + tail[slash + 1..] else "";
    if slash < |tail| {
      assert tail == tail[..slash] + [tail[slash]] + tail[slash + 1..];
    } else {
      assert tail[..slash] == tail;
    }
    assert tail == tail[..slash] + rest;
    calc {
      name;
      name[..11] + tail;
      ModelfilePrefix + (tail[..slash] + rest);
      { ConcatAssoc(ModelfilePrefix, tail[..slash], rest); }
      ModelfilePrefix + tail[..slash] + rest;
    }
  }

}
