/**
 * Command-line helpers layered on the click library (guild/click_util.py):
 * command paths and aliases, help-text markup, the JSON help formatter,
 * decorator parameters and error messages.
 */
module ClickUtil {
  import opened Wrappers
  import opened Strings

  // ---------------------------------------------------------------- command paths

  /** A `", "` at position i with at least one character on each side. */
  predicate IsPathSeparator(body: string, i: int)
  {
    1 <= i && i + 2 < |body| && body[i] == ',' && body[i + 1] == ' '
  }

  /** The first separator at or after `from`, if any. */
  function FindPathSeparator(body: string, from: nat): (r: Option<nat>)
    requires from >= 1
    ensures r.Some? ==> from <= r.value && IsPathSeparator(body, r.value)
    ensures r.Some? ==> forall j :: from <= j < r.value ==> !IsPathSeparator(body, j)
    ensures r.None? ==> forall j :: from <= j ==> !IsPathSeparator(body, j)
    decreases |body| - from
  {
    if from + 2 >= |body| then None
    else if body[from] == ',' && body[from + 1] == ' ' then Some(from)
    else FindPathSeparator(body, from + 1)
  }

  /**
   * `normalize_command_path`: the match of `^(.+?), .+$`. Neither group may
   * span a newline, and `$` also matches just before a final newline.
   */
  function NormalizeCommandPath(path: string): (r: string)
    ensures StartsWith(path, r)
  {
    var body := if EndsWith(path, "\n") then path[..|path| - 1] else path;
    if '\n' in body then path
    else match FindPathSeparator(body, 1)
      case Some(i) => path[..i]
      case None => path
  }

  /** A single-line path is cut before its first separator. */
  lemma NormalizeAtFirstSeparator(path: string, i: nat)
    requires '\n' !in path
    requires IsPathSeparator(path, i)
    requires forall j :: 1 <= j < i ==> !IsPathSeparator(path, j)
    ensures NormalizeCommandPath(path) == path[..i]
  {
    assert !EndsWith(path, "\n") by {
      assert path[|path| - 1] in path;
    }
  }

  /** A path with no separator, or a newline before its last character, is returned whole. */
  lemma NormalizeWithoutSeparator(path: string)
    requires (forall j :: !IsPathSeparator(path, j)) ||
             (|path| >= 1 && '\n' in path[..|path| - 1])
    ensures NormalizeCommandPath(path) == path
  {
    var body := if EndsWith(path, "\n") then path[..|path| - 1] else path;
    if |path| >= 1 && '\n' in path[..|path| - 1] {
      var k :| 0 <= k < |path| - 1 && path[k] == '\n';
      assert body[k] == '\n';
    } else if '\n' !in body {
      forall j ensures !IsPathSeparator(body, j) {
        if IsPathSeparator(body, j) {
          assert body[j] == path[j] && body[j + 1] == path[j + 1];
          assert IsPathSeparator(path, j);
        }
      }
    }
  }

  // ---------------------------------------------------------------- command aliases

  /** Drops the one space `, ?` may take after a comma. */
  function DropSpace(p: string): (r: string)
    ensures p != [] && p[0] == ' ' ==> r == p[1..]
    ensures p == [] || p[0] != ' ' ==> r == p
  {
    if p != [] && p[0] == ' ' then p[1..] else p
  }

  /** `re.split(", ?", name)`: the aliases in a command name such as "run, r". */
  function SplitAliases(name: string): (aliases: seq<string>)
    ensures |aliases| >= 1
    ensures forall a :: a in aliases ==> ',' !in a
    decreases |name|
  {
    var i := IndexOfChar(name, ',');
    if i == |name| then [name] else [name[..i]] + SplitAliases(DropSpace(name[i + 1..]))
  }

  /** Writing aliases as "a, b, c" and splitting gives them back. */
  lemma {:induction false} SplitAliasesJoin(aliases: seq<string>)
    requires |aliases| >= 1
    requires forall a :: a in aliases ==> ',' !in a
    requires forall i :: 1 <= i < |aliases| ==> aliases[i] == [] || aliases[i][0] != ' '
    ensures SplitAliases(Join(", ", aliases)) == aliases
  {
    var first := aliases[0];
    assert ',' !in first by { assert first in aliases; }
    if |aliases| == 1 {
      NoCharIndex(first, ',');
    } else {
      var rest := aliases[1..];
      AliasesTail(aliases);
      calc {
        SplitAliases(Join(", ", aliases));
        SplitAliases(first + ", " + Join(", ", rest));
        { SplitAliasesCons(first, Join(", ", rest)); }
        [first] + SplitAliases(Join(", ", rest));
        { SplitAliasesJoin(rest); }
        [first] + rest;
        aliases;
      }
    }
  }

  /** What the induction step of `SplitAliasesJoin` needs about the aliases after the first. */
  lemma AliasesTail(aliases: seq<string>)
    requires |aliases| >= 2
    requires forall a :: a in aliases ==> ',' !in a
    requires forall i :: 1 <= i < |aliases| ==> aliases[i] == [] || aliases[i][0] != ' '
    ensures var rest := aliases[1..];
      && (forall a :: a in rest ==> ',' !in a)
      && (forall i :: 1 <= i < |rest| ==> rest[i] == [] || rest[i][0] != ' ')
      && Join(", ", aliases) == aliases[0] + ", " + Join(", ", rest)
      && (Join(", ", rest) == [] || Join(", ", rest)[0] != ' ')
  {
    var rest := aliases[1..];
    assert forall a :: a in rest ==> a in aliases;
    assert forall i :: 1 <= i < |rest| ==> rest[i] == aliases[i + 1];
    var tail := Join(", ", rest);
    if |rest| > 1 {
      assert tail == rest[0] + ", " + Join(", ", rest[1..]);
    }
    assert rest[0] == aliases[1];
  }

  /** A first alias without ',' is split off "a, b" on its own. */
  lemma SplitAliasesCons(a: string, b: string)
    requires ',' !in a
    requires b == [] || b[0] != ' '
    ensures SplitAliases(a + ", " + b) == [a] + SplitAliases(b)
  {
    var name := a + ", " + b;
    assert name == a + [','] + (" " + b);
    PrefixIndex(a, ',', " " + b);
    assert name[..|a|] == a;
    assert name[|a| + 1..] == " " + b;
    assert (" " + b)[1..] == b;
  }

  /** `cmdName` is one of the aliases written in the command name `fullName`. */
  predicate HasAlias(fullName: string, cmdName: string)
  {
    cmdName in SplitAliases(fullName)
  }

  /**
   * `Group.get_command`: the name to look up is the full name of the
   * first command (in the group's order) one of whose aliases is
   * `cmdName`, or `cmdName` itself when none has it.
   */
  method GetCommandName(commandNames: seq<string>, cmdName: string) returns (name: string)
    ensures (forall i :: 0 <= i < |commandNames| ==> !HasAlias(commandNames[i], cmdName)) ==> name == cmdName
    ensures forall i :: (0 <= i < |commandNames| && HasAlias(commandNames[i], cmdName) &&
      (forall j :: 0 <= j < i ==> !HasAlias(commandNames[j], cmdName))) ==> name == commandNames[i]
  {
    name := cmdName;
    var i := 0;
    while i < |commandNames|
      invariant 0 <= i <= |commandNames|
      invariant forall j :: 0 <= j < i ==> !HasAlias(commandNames[j], cmdName)
      invariant name == cmdName
    {
      if HasAlias(commandNames[i], cmdName) {
        name := commandNames[i];
        forall k | 0 <= k < |commandNames| && HasAlias(commandNames[k], cmdName) &&
          (forall j :: 0 <= j < k ==> !HasAlias(commandNames[j], cmdName))
          ensures k == i
        {
        }
        return;
      }
      i := i + 1;
    }
  }

  // ---------------------------------------------------------------- help text markup

  /** `re.sub` of a literal pattern: every leftmost, non-overlapping occurrence replaced. */
  function ReplaceAll(s: string, pat: string, rep: string): (r: string)
    requires pat != []
    ensures forall ch :: ch in r ==> ch in s || ch in rep
    ensures s != [] && !StartsWith(s, pat) ==> r != [] && r[0] == s[0]
    decreases |s|
  {
    if s == [] then []
    else if StartsWith(s, pat) then rep + ReplaceAll(s[|pat|..], pat, rep)
    else [s[0]] + ReplaceAll(s[1..], pat, rep)
  }

  /**
   * The leftmost occurrence is replaced, and the scan resumes after it: text
   * `a` in which no occurrence starts comes through unchanged, the
   * occurrence after it becomes `rep`, and the rest is replaced in turn.
   */
  lemma {:induction false} ReplaceAllLeftmost(a: string, pat: string, rep: string, b: string)
    requires pat != []
    requires forall k :: 0 <= k < |a| ==> !StartsWith((a + pat + b)[k..], pat)
    ensures ReplaceAll(a + pat + b, pat, rep) == a + rep + ReplaceAll(b, pat, rep)
    decreases |a|
  {
    var s := a + pat + b;
    if a == [] {
      assert s == pat + b && s[|pat|..] == b;
    } else {
      var s' := a[1..] + pat + b;
      assert s[0..] == s && s[1..] == s';
      forall k | 0 <= k < |a[1..]| ensures !StartsWith(s'[k..], pat) {
        assert s'[k..] == s[k + 1..];
      }
      calc {
        ReplaceAll(s, pat, rep);
        [a[0]] + ReplaceAll(s', pat, rep);
        { ReplaceAllLeftmost(a[1..], pat, rep, b); }
        [a[0]] + (a[1..] + rep + ReplaceAll(b, pat, rep));
        { assert [a[0]] + a[1..] == a; }
        a + rep + ReplaceAll(b, pat, rep);
      }
    }
  }

  /** Text without the pattern is left alone. */
  lemma {:induction false} ReplaceAllAbsent(s: string, pat: string, rep: string)
    requires pat != []
    requires !Contains(s, pat)
    ensures ReplaceAll(s, pat, rep) == s
    decreases |s|
  {
    if s != [] {
      ReplaceAllAbsent(s[1..], pat, rep);
      assert s == [s[0]] + s[1..];
    }
  }

  /** Replacing a character by text without it leaves none of it. */
  lemma {:induction false} ReplaceAllRemovesChar(s: string, ch: char, rep: string)
    requires ch !in rep
    ensures ch !in ReplaceAll(s, [ch], rep)
    decreases |s|
  {
    if s != [] {
      if StartsWith(s, [ch]) {
        ReplaceAllRemovesChar(s[|[ch]|..], ch, rep);
      } else {
        assert s[0] != ch;
        ReplaceAllRemovesChar(s[1..], ch, rep);
      }
    }
  }

  /** No `**` in the text. */
  predicate NoDoubleStar(s: string)
  {
    forall k :: 0 <= k < |s| - 1 ==> !(s[k] == '*' && s[k + 1] == '*')
  }

  /** Removing every `**` leaves none, even where three or more stars were in a row. */
  lemma {:induction false} RemoveDoubleStars(s: string)
    ensures NoDoubleStar(ReplaceAll(s, "**", ""))
    decreases |s|
  {
    if s != [] {
      if StartsWith(s, "**") {
        RemoveDoubleStars(s[2..]);
      } else {
        RemoveDoubleStars(s[1..]);
        var rest := ReplaceAll(s[1..], "**", "");
        var r := ReplaceAll(s, "**", "");
        assert r == [s[0]] + rest;
        if s[0] == '*' && |s| > 1 {
          assert s[1] != '*';
          assert !StartsWith(s[1..], "**");
        }
        forall k | 0 <= k < |r| - 1 ensures !(r[k] == '*' && r[k + 1] == '*') {
          if k > 0 {
            assert r[k] == rest[k - 1] && r[k + 1] == rest[k];
          }
        }
      }
    }
  }

  /** `str.upper()` of one character: a lower-case ASCII letter becomes its capital. */
  function UpperChar(ch: char): (r: char)
    ensures 'a' <= ch <= 'z' ==> 'A' <= r <= 'Z' && r as int == ch as int - ('a' as int - 'A' as int)
    ensures !('a' <= ch <= 'z') ==> r == ch
  {
    if 'a' <= ch <= 'z' then (ch as int - 32) as char else ch
  }

  /** `str.upper()` on ASCII letters. */
  function Upper(s: string): (r: string)
    ensures |r| == |s|
    ensures forall k :: 0 <= k < |s| ==> r[k] == UpperChar(s[k])
  {
    seq(|s|, k requires 0 <= k < |s| => UpperChar(s[k]))
  }

  /** One line of `^### (.+?)$`: a heading's text, upper-cased, in place of the line. */
  function HeadingLine(line: string): (r: string)
    ensures forall ch :: ch in r && !('A' <= ch <= 'Z') ==> ch in line
  {
    if |line| > 4 && line[..4] == "### " then
      var u := Upper(line[4..]);
      assert forall k :: 0 <= k < |u| && !('A' <= u[k] <= 'Z') ==> u[k] == line[k + 4];
      u
    else line
  }

  /** The heading substitution, applied line by line. */
  function UpperHeadings(s: string): (r: string)
    ensures forall ch :: ch in r && ch != '\n' && !('A' <= ch <= 'Z') ==> ch in s
    decreases |s|
  {
    var i := IndexOfChar(s, '\n');
    if i == |s| then HeadingLine(s)
    else
      var h, rest := HeadingLine(s[..i]), UpperHeadings(s[i + 1..]);
      assert forall ch :: ch in s[..i] ==> ch in s;
      assert forall ch :: ch in s[i + 1..] ==> ch in s;
      h + "\n" + rest
  }

  /** A heading line "### X" becomes X in upper case. */
  lemma HeadingLineUpper(x: string)
    requires x != [] && '\n' !in x
    ensures UpperHeadings("### " + x) == Upper(x)
  {
    NoCharIndex("### " + x, '\n');
    assert ("### " + x)[4..] == x;
  }

  /** The rewrite works line by line: a line is rewritten on its own and the rest follows its newline. */
  lemma UpperHeadingsLine(line: string, rest: string)
    requires '\n' !in line
    ensures UpperHeadings(line + "\n" + rest) == HeadingLine(line) + "\n" + UpperHeadings(rest)
  {
    var s := line + "\n" + rest;
    PrefixIndex(line, '\n', rest);
    assert s[..|line|] == line;
    assert s[|line| + 1..] == rest;
  }

  datatype TextSub = Literal(pat: string, rep: string) | HeadingUpper

  /** The substitutions of `HelpFormatter._text_subs`, in order. */
  const TextSubs: seq<TextSub> := [Literal("``", "'"), Literal("`", ""), HeadingUpper, Literal("**", "")]

  function ApplySub(sub: TextSub, s: string): string
    requires sub.Literal? ==> sub.pat != []
  {
    match sub
    case Literal(pat, rep) => ReplaceAll(s, pat, rep)
    case HeadingUpper => UpperHeadings(s)
  }

  /** The substitutions applied one after the other, the first one first. */
  function ApplySubs(subs: seq<TextSub>, s: string): string
    requires forall k :: 0 <= k < |subs| ==> subs[k].Literal? ==> subs[k].pat != []
  {
    if subs == [] then s else ApplySub(subs[|subs| - 1], ApplySubs(subs[..|subs| - 1], s))
  }

  /**
   * `HelpFormatter._format_text`: double backticks become a quote, single
   * ones go, headings are upper-cased and bold markers go, so no backtick
   * and no `**` is left.
   */
  method FormatText(text: string) returns (r: string)
    ensures r == ApplySubs(TextSubs, text)
    ensures '`' !in r
    ensures NoDoubleStar(r)
  {
    r := text;
    for i := 0 to |TextSubs|
      invariant r == ApplySubs(TextSubs[..i], text)
    {
      assert TextSubs[..i + 1][..i] == TextSubs[..i];
      r := ApplySub(TextSubs[i], r);
    }
    assert TextSubs[..|TextSubs|] == TextSubs;
    var quoted := ReplaceAll(text, "``", "'");
    var plain := ReplaceAll(quoted, "`", "");
    var headed := UpperHeadings(plain);
    TextSubsInOrder(text);
    ReplaceAllRemovesChar(quoted, '`', "");
    assert '`' !in headed;
    RemoveDoubleStars(headed);
  }

  /** The substitutions written out in the order they run. */
  lemma TextSubsInOrder(text: string)
    ensures ApplySubs(TextSubs, text) ==
      ReplaceAll(UpperHeadings(ReplaceAll(ReplaceAll(text, "``", "'"), "`", "")), "**", "")
  {
    assert TextSubs[..3][..2][..1][..0] == [];
    assert TextSubs[..3][..2][..1] == TextSubs[..1];
    assert TextSubs[..3][..2] == TextSubs[..2];
    assert TextSubs[..4][..3] == TextSubs[..3];
    assert TextSubs[..4] == TextSubs;
    assert ApplySubs(TextSubs[..1], text) == ReplaceAll(text, "``", "'");
    assert ApplySubs(TextSubs[..2], text) == ReplaceAll(ReplaceAll(text, "``", "'"), "`", "");
  }

  // ---------------------------------------------------------------- JSON help formatter

  /** The JSON values the formatter builds. */
  datatype JValue = JString(s: string) | JArray(items: seq<JValue>) | JObject(fields: map<string, JValue>)

  /** The help-text buffer: None, an open list of pieces, or the finalized marker. */
  datatype HelpBuffer = NotStarted | Open(pieces: seq<string>) | Finalized

  /** The exceptions the formatter's methods raise. */
  datatype HelpError = AssertionError(detail: string) | AttributeError

  /** What a call did: returned, or raised. */
  datatype Outcome = Done | Raised(error: HelpError)

  /** A `write_dl` row as `{"term": ..., "help": ...}`. */
  function DlRow(row: (string, string)): JValue
  {
    JObject(map["term" := JString(row.0), "help" := JString(row.1)])
  }

  function DlRows(rows: seq<(string, string)>): (r: seq<JValue>)
    ensures |r| == |rows|
    ensures forall i :: 0 <= i < |rows| ==> r[i] == DlRow(rows[i])
  {
    seq(|rows|, i requires 0 <= i < |rows| => DlRow(rows[i]))
  }

  /**
   * `JSONHelpFormatter`: collects click's help output as a JSON object.
   * `curDl` names the entry of `val` that `_cur_dl` aliases, the list that
   * `write_dl` extends.
   */
  class JsonHelpFormatter {
    var val: map<string, JValue>
    var helpText: HelpBuffer
    var curDl: Option<string>

    /** "help" is written exactly when the buffer is finalized, and the current list is a list in `val`. */
    ghost predicate Valid()
      reads this
    {
      "version" in val &&
      ("help" in val <==> helpText.Finalized?) &&
      (helpText.Finalized? ==> val["help"].JString?) &&
      (curDl.Some? ==> curDl.value in val && val[curDl.value].JArray? &&
                       (curDl.value == "options" || curDl.value == "commands"))
    }

    /** Once written, "help" never changes and the buffer stays finalized. */
    twostate predicate HelpKept()
      reads this
    {
      (old(helpText).Finalized? ==> helpText.Finalized?) &&
      ("help" in old(val) ==> "help" in val && val["help"] == old(val)["help"])
    }

    constructor (version: string)
      ensures Valid()
      ensures val == map["version" := JString(version)]
      ensures helpText == NotStarted && curDl == None
    {
      val := map["version" := JString(version)];
      helpText := NotStarted;
      curDl := None;
    }

    method WriteUsage(prog: string, args: string)
      requires Valid()
      modifies this
      ensures Valid() && HelpKept()
      ensures val == old(val)["usage" := JObject(map["prog" := JString(prog), "args" := JString(args)])]
      ensures helpText == old(helpText) && curDl == old(curDl)
    {
      val := val["usage" := JObject(map["prog" := JString(prog), "args" := JString(args)])];
    }

    /**
     * `write_paragraph`: a newline piece on an open buffer, nothing before
     * the buffer exists, and an AttributeError once it is finalized (the
     * marker object has no `append`).
     */
    method WriteParagraph() returns (outcome: Outcome)
      requires Valid()
      modifies this
      ensures Valid() && HelpKept()
      ensures old(helpText).Open? ==> outcome == Done && helpText == Open(old(helpText).pieces + ["\n"])
      ensures old(helpText).NotStarted? ==> outcome == Done && helpText == NotStarted
      ensures old(helpText).Finalized? ==> outcome == Raised(AttributeError) && helpText == Finalized
      ensures val == old(val) && curDl == old(curDl)
    {
      match helpText
      case NotStarted => outcome := Done;
      case Open(pieces) =>
        helpText := Open(pieces + ["\n"]);
        outcome := Done;
      case Finalized => outcome := Raised(AttributeError);
    }

    /** `indent`: opens the buffer if it does not exist yet. */
    method Indent()
      requires Valid()
      modifies this
      ensures Valid() && HelpKept()
      ensures helpText == if old(helpText).NotStarted? then Open([]) else old(helpText)
      ensures val == old(val) && curDl == old(curDl)
    {
      if helpText.NotStarted? {
        helpText := Open([]);
      }
    }

    /** `dedent`: stores the joined buffer under "help" and finalizes it, once. */
    method Dedent()
      requires Valid()
      modifies this
      ensures Valid() && HelpKept()
      ensures old(helpText).Open? ==>
        helpText == Finalized && val == old(val)["help" := JString(Concat(old(helpText).pieces))]
      ensures !old(helpText).Open? ==> helpText == old(helpText) && val == old(val)
      ensures curDl == old(curDl)
    {
      if helpText.Open? {
        val := val["help" := JString(Concat(helpText.pieces))];
        helpText := Finalized;
      }
    }

    /** `write_text`: appends to an open buffer; fails its assertion otherwise. */
    method WriteText(text: string) returns (outcome: Outcome)
      requires Valid()
      modifies this
      ensures Valid() && HelpKept()
      ensures old(helpText).Open? ==> outcome == Done && helpText == Open(old(helpText).pieces + [text])
      ensures !old(helpText).Open? ==> outcome.Raised? && outcome.error.AssertionError? && helpText == old(helpText)
      ensures val == old(val) && curDl == old(curDl)
    {
      if helpText.Open? {
        helpText := Open(helpText.pieces + [text]);
        outcome := Done;
      } else {
        outcome := Raised(AssertionError(""));
      }
    }

    /**
     * Entering `section(name)`: "Options" and "Commands" install a fresh
     * list under their key as the current list and open the buffer; any
     * other name raises AssertionError before anything changes. Leaving
     * the section is Dedent.
     */
    method EnterSection(name: string) returns (outcome: Outcome)
      requires Valid()
      modifies this
      ensures Valid() && HelpKept()
      ensures name == "Options" || name == "Commands" ==>
        var key := if name == "Options" then "options" else "commands";
        outcome == Done && curDl == Some(key) && val == old(val)[key := JArray([])] &&
        helpText == (if old(helpText).NotStarted? then Open([]) else old(helpText))
      ensures name != "Options" && name != "Commands" ==>
        outcome == Raised(AssertionError(name)) &&
        val == old(val) && helpText == old(helpText) && curDl == old(curDl)
    {
      if name == "Options" {
        val := val["options" := JArray([])];
        curDl := Some("options");
      } else if name == "Commands" {
        val := val["commands" := JArray([])];
        curDl := Some("commands");
      } else {
        return Raised(AssertionError(name));
      }
      Indent();
      outcome := Done;
    }

    /** `write_dl`: appends the rows, in order, to the current list; fails its assertion without one. */
    method WriteDl(rows: seq<(string, string)>) returns (outcome: Outcome)
      requires Valid()
      modifies this
      ensures Valid() && HelpKept()
      ensures old(curDl).Some? ==>
        var key := old(curDl).value;
        outcome == Done && val == old(val)[key := JArray(old(val)[key].items + DlRows(rows))]
      ensures old(curDl).None? ==> outcome.Raised? && outcome.error.AssertionError? && val == old(val)
      ensures helpText == old(helpText) && curDl == old(curDl)
    {
      if curDl.None? {
        return Raised(AssertionError(""));
      }
      var key := curDl.value;
      val := val[key := JArray(val[key].items + DlRows(rows))];
      outcome := Done;
    }

    /**
     * A whole `with section(name): write_dl(rows)` block, as click writes
     * its option and command lists: the list holds exactly the rows, and
     * leaving the section finalizes the help text, so that any later
     * `write_text` fails its assertion.
     */
    method WriteSection(name: string, rows: seq<(string, string)>) returns (outcome: Outcome)
      requires Valid()
      modifies this
      ensures Valid() && HelpKept()
      ensures name == "Options" || name == "Commands" ==>
        var key := if name == "Options" then "options" else "commands";
        var listed := old(val)[key := JArray(DlRows(rows))];
        outcome == Done && helpText == Finalized && curDl == Some(key) &&
        val == if old(helpText).Finalized? then listed
               else listed["help" := JString(Concat(if old(helpText).Open? then old(helpText).pieces else []))]
      ensures name != "Options" && name != "Commands" ==>
        outcome == Raised(AssertionError(name)) &&
        val == old(val) && helpText == old(helpText) && curDl == old(curDl)
    {
      outcome := EnterSection(name);
      if outcome.Raised? {
        return;
      }
      ghost var key := curDl.value;
      outcome := WriteDl(rows);
      assert [] + DlRows(rows) == DlRows(rows);
      assert val == old(val)[key := JArray(DlRows(rows))];
      Dedent();
    }
  }

  // ---------------------------------------------------------------- decorator parameters

  /** A decorated command function and its `__click_params__` attribute, absent at first. */
  class Decorated<P> {
    var clickParams: Option<seq<P>>

    constructor ()
      ensures clickParams == None
    {
      clickParams := None;
    }
  }

  function Reversed<T>(s: seq<T>): (r: seq<T>)
    ensures |r| == |s|
    ensures forall i :: 0 <= i < |s| ==> r[i] == s[|s| - 1 - i]
  {
    if s == [] then [] else Reversed(s[1..]) + [s[0]]
  }

  lemma {:induction false} ReversedTwice<T>(s: seq<T>)
    ensures Reversed(Reversed(s)) == s
  {
    var r := Reversed(s);
    assert forall i :: 0 <= i < |s| ==> Reversed(r)[i] == r[|s| - 1 - i] == s[i];
  }

  /** Reversing from one position earlier adds that element at the end. */
  lemma ReversedStep<T>(s: seq<T>, i: nat)
    requires i < |s|
    ensures Reversed(s[i..]) == Reversed(s[i + 1..]) + [s[i]]
  {
    var t := s[i..];
    assert t[0] == s[i];
    assert t[1..] == s[i + 1..];
  }

  /**
   * `append_params`: keeps the parameters already on the function and
   * appends the new ones after them, last first, one at a time.
   */
  method AppendParams<P>(fn: Decorated<P>, params: seq<P>)
    modifies fn
    ensures fn.clickParams == Some(old(if fn.clickParams.Some? then fn.clickParams.value else []) + Reversed(params))
  {
    var existing := if fn.clickParams.Some? then fn.clickParams.value else [];
    ghost var prev := existing;
    var i := |params|;
    while i > 0
      invariant 0 <= i <= |params|
      invariant existing == prev + Reversed(params[i..])
    {
      i := i - 1;
      ReversedStep(params, i);
      existing := existing + [params[i]];
    }
    fn.clickParams := Some(existing);
  }

  // ---------------------------------------------------------------- error messages

  /** The parts of a click context the messages use. */
  datatype Context = Context(commandPath: string, helpOptionNames: seq<string>)

  /** The click exceptions, with what each message needs; `format_message()` is given as text. */
  datatype ClickError =
    | MissingParameter(humanReadableName: string, ctx: Option<Context>)
    | NoSuchOption(optionName: string, possibilities: seq<string>, ctx: Option<Context>)
    | UsageError(message: string, ctx: Option<Context>)
    | OtherError(message: string, ctx: Option<Context>)

  function FormatMissingParameter(humanReadableName: string): (r: string)
    ensures StartsWith(r, "missing argument for ") && r[21..] == humanReadableName
  {
    "missing argument for " + humanReadableName
  }

  /** `_format_no_such_option_error`: names the option and, if there is one, the first possibility. */
  function FormatNoSuchOption(optionName: string, possibilities: seq<string>): (r: string)
    ensures possibilities == [] ==> r == "unrecognized option '" + optionName + "'"
    ensures possibilities != [] ==>
      r == "unrecognized option '" + optionName + "' (did you mean " + possibilities[0] + "?)"
  {
    var moreHelp := if possibilities != [] then " (did you mean " + possibilities[0] + "?)" else "";
    "unrecognized option '" + optionName + "'" + moreHelp
  }

  /** Only the first possibility counts: the others never change the message. */
  lemma NoSuchOptionFirstOnly(optionName: string, first: string, others1: seq<string>, others2: seq<string>)
    ensures FormatNoSuchOption(optionName, [first] + others1) == FormatNoSuchOption(optionName, [first] + others2)
  {
  }

  const NoSuchCommandPrefix := "No such command \""
  const ExtraArgumentPrefix := "Got unexpected extra argument ("
  const ExtraArgumentsPrefix := "Got unexpected extra arguments ("

  /** The first line of `s`: where `.` stops. */
  function FirstLine(s: string): (r: string)
    ensures StartsWith(s, r) && '\n' !in r
  {
    s[..IndexOfChar(s, '\n')]
  }

  /** Index of the last `c` in `s` at or after position 1, if any. */
  function LastIndexFrom1(s: string, c: char): (r: Option<nat>)
    ensures r.Some? ==> 1 <= r.value < |s| && s[r.value] == c && forall j :: r.value < j < |s| ==> s[j] != c
    ensures r.None? ==> forall j :: 1 <= j < |s| ==> s[j] != c
    decreases |s|
  {
    if |s| <= 1 then None
    else if s[|s| - 1] == c then Some(|s| - 1)
    else
      var r := LastIndexFrom1(s[..|s| - 1], c);
      assert forall j :: 1 <= j < |s| - 1 ==> s[..|s| - 1][j] == s[j];
      r
  }

  /** Index of the first `c` in `s` at or after position 1, if any. */
  function FirstIndexFrom1(s: string, c: char): (r: Option<nat>)
    ensures r.Some? ==> 1 <= r.value < |s| && s[r.value] == c && forall j :: 1 <= j < r.value ==> s[j] != c
    ensures r.None? ==> forall j :: 1 <= j < |s| ==> s[j] != c
  {
    if |s| <= 1 then None
    else
      var k := IndexOfChar(s[1..], c);
      if k == |s| - 1 then None
      else
        assert forall j :: 1 <= j < k + 1 ==> s[j] == s[1..][j - 1];
        Some(k + 1)
  }

  /** A message that starts with `prefix` and then `line` starts with `prefix` and the first j + 1 characters of `line`. */
  lemma PrefixThrough(msg: string, prefix: string, line: string, j: nat)
    requires StartsWith(msg, prefix)
    requires StartsWith(msg[|prefix|..], line)
    requires j < |line|
    ensures StartsWith(msg, prefix + line[..j] + [line[j]])
  {
    var t := prefix + line[..j] + [line[j]];
    forall k | 0 <= k < |t|
      ensures msg[k] == t[k]
    {
      if k >= |prefix| {
        assert msg[|prefix|..][k - |prefix|] == line[k - |prefix|];
      }
    }
    assert msg[..|t|] == t;
  }

  /** `re.match('No such command "(.+)"', msg)`: the greedy group up to the last quote on the first line. */
  function MatchNoSuchCommand(msg: string): (r: Option<string>)
    ensures r.Some? ==> r.value != [] && StartsWith(msg, NoSuchCommandPrefix + r.value + "\"")
  {
    if !StartsWith(msg, NoSuchCommandPrefix) then None
    else
      var line := FirstLine(msg[|NoSuchCommandPrefix|..]);
      match LastIndexFrom1(line, '"')
      case None => None
      case Some(j) =>
        PrefixThrough(msg, NoSuchCommandPrefix, line, j);
        Some(line[..j])
  }

  /** `re.match(prefix + "(.+?)\)", msg)`: the lazy group up to the first `)` on the first line. */
  function MatchExtraArgument(prefix: string, msg: string): (r: Option<string>)
    ensures r.Some? ==> r.value != [] && StartsWith(msg, prefix + r.value + ")")
  {
    if !StartsWith(msg, prefix) then None
    else
      var line := FirstLine(msg[|prefix|..]);
      match FirstIndexFrom1(line, ')')
      case None => None
      case Some(j) =>
        PrefixThrough(msg, prefix, line, j);
        Some(line[..j])
  }

  /** `_format_usage_error`: the first rewrite whose pattern matches, else the message unchanged. */
  function FormatUsageError(msg: string): (r: string)
    ensures var m1, m2, m3 :=
        MatchNoSuchCommand(msg), MatchExtraArgument(ExtraArgumentPrefix, msg), MatchExtraArgument(ExtraArgumentsPrefix, msg);
      && (m1.Some? ==> r == "unrecognized command '" + m1.value + "'")
      && (m1.None? && m2.Some? ==> r == "unexpected extra argument '" + m2.value + "'")
      && (m1.None? && m2.None? && m3.Some? ==> r == "unexpected extra arguments '" + m3.value + "'")
      && (m1.None? && m2.None? && m3.None? ==> r == msg)
  {
    match MatchNoSuchCommand(msg)
    case Some(g) => "unrecognized command '" + g + "'"
    case None =>
      match MatchExtraArgument(ExtraArgumentPrefix, msg)
      case Some(g) => "unexpected extra argument '" + g + "'"
      case None =>
        match MatchExtraArgument(ExtraArgumentsPrefix, msg)
        case Some(g) => "unexpected extra arguments '" + g + "'"
        case None => msg
  }

  /** click's "no such command" message comes through as the command name in quotes. */
  lemma NoSuchCommandRewrite(name: string)
    requires name != [] && '\n' !in name
    ensures FormatUsageError(NoSuchCommandPrefix + name + "\"") == "unrecognized command '" + name + "'"
  {
    NoSuchCommandMatch(name);
  }

  lemma NoSuchCommandMatch(name: string)
    requires name != [] && '\n' !in name
    ensures MatchNoSuchCommand(NoSuchCommandPrefix + name + "\"") == Some(name)
  {
    var m := NoSuchCommandPrefix + name + "\"";
    var line := name + "\"";
    assert m[..|NoSuchCommandPrefix|] == NoSuchCommandPrefix;
    assert m[|NoSuchCommandPrefix|..] == line;
    NoCharIndex(line, '\n');
    assert line[..|line|] == line;
    assert line[..|line| - 1] == name;
  }

  /** click's "extra argument" message comes through as the argument in quotes. */
  lemma ExtraArgumentRewrite(args: string)
    requires args != [] && '\n' !in args && ')' !in args
    ensures FormatUsageError(ExtraArgumentPrefix + args + ")") == "unexpected extra argument '" + args + "'"
  {
    var m := ExtraArgumentPrefix + args + ")";
    assert m[0] != NoSuchCommandPrefix[0];
    ExtraArgumentMatch(ExtraArgumentPrefix, args);
  }

  /** click's "extra arguments" message comes through as the arguments in quotes. */
  lemma ExtraArgumentsRewrite(args: string)
    requires args != [] && '\n' !in args && ')' !in args
    ensures FormatUsageError(ExtraArgumentsPrefix + args + ")") == "unexpected extra arguments '" + args + "'"
  {
    var m := ExtraArgumentsPrefix + args + ")";
    assert m[0] != NoSuchCommandPrefix[0];
    assert m[|ExtraArgumentPrefix| - 1] != ExtraArgumentPrefix[|ExtraArgumentPrefix| - 1];
    ExtraArgumentMatch(ExtraArgumentsPrefix, args);
  }

  /** The lazy group of an "extra argument" pattern is everything up to the closing parenthesis. */
  lemma ExtraArgumentMatch(prefix: string, args: string)
    requires args != [] && '\n' !in args && ')' !in args
    ensures MatchExtraArgument(prefix, prefix + args + ")") == Some(args)
  {
    var m := prefix + args + ")";
    var line := args + ")";
    assert m[..|prefix|] == prefix;
    assert m[|prefix|..] == line;
    NoCharIndex(line, '\n');
    assert line[..|line|] == line;
    ExtraArgumentAt(args);
    assert line[..|args|] == args;
  }

  lemma ExtraArgumentAt(args: string)
    requires args != [] && ')' !in args
    ensures FirstIndexFrom1(args + ")", ')') == Some(|args|)
  {
    var s := args + ")";
    assert s[|args|] == ')';
    assert forall j :: 0 <= j < |args| ==> s[j] == args[j] != ')';
  }

  /** A message that starts with none of the three patterns' fixed text is left unchanged. */
  lemma UsageErrorUnchanged(msg: string)
    requires !StartsWith(msg, NoSuchCommandPrefix)
    requires !StartsWith(msg, ExtraArgumentPrefix) && !StartsWith(msg, ExtraArgumentsPrefix)
    ensures FormatUsageError(msg) == msg
  {
  }

  /** `_format_click_error_message`: the first matching kind of error decides the text. */
  function FormatClickErrorMessage(e: ClickError): (r: string)
    ensures e.MissingParameter? ==> r == "missing argument for " + e.humanReadableName
    ensures e.NoSuchOption? ==> r == FormatNoSuchOption(e.optionName, e.possibilities)
    ensures e.UsageError? ==> r == FormatUsageError(e.message)
    ensures e.OtherError? ==> r == e.message
  {
    match e
    case MissingParameter(name, _) => FormatMissingParameter(name)
    case NoSuchOption(option, possibilities, _) => FormatNoSuchOption(option, possibilities)
    case UsageError(message, _) => FormatUsageError(message)
    case OtherError(message, _) => message
  }

  /** `cmd_help`: the command path before any alias list, then the first help option. */
  function CmdHelp(ctx: Context): (r: string)
    requires ctx.helpOptionNames != []
    ensures r == NormalizeCommandPath(ctx.commandPath) + " " + ctx.helpOptionNames[0]
    ensures EndsWith(r, " " + ctx.helpOptionNames[0])
    ensures StartsWith(ctx.commandPath, r[..|r| - |ctx.helpOptionNames[0]| - 1])
  {
    var path := NormalizeCommandPath(ctx.commandPath);
    var r := path + " " + ctx.helpOptionNames[0];
    assert r[..|r| - |ctx.helpOptionNames[0]| - 1] == path;
    r
  }

  /**
   * A command shown with its aliases, such as "guild runs, runs list", is
   * named in the help command by the part before the first ", ".
   */
  lemma CmdHelpNamesCommand(ctx: Context, i: nat)
    requires ctx.helpOptionNames != []
    requires '\n' !in ctx.commandPath
    requires IsPathSeparator(ctx.commandPath, i)
    requires forall j :: 1 <= j < i ==> !IsPathSeparator(ctx.commandPath, j)
    ensures CmdHelp(ctx) == ctx.commandPath[..i] + " " + ctx.helpOptionNames[0]
  {
    NormalizeAtFirstSeparator(ctx.commandPath, i);
  }

  /** A command path without aliases is named whole. */
  lemma CmdHelpWholePath(ctx: Context)
    requires ctx.helpOptionNames != []
    requires forall j :: !IsPathSeparator(ctx.commandPath, j)
    ensures CmdHelp(ctx) == ctx.commandPath + " " + ctx.helpOptionNames[0]
  {
    NormalizeWithoutSeparator(ctx.commandPath);
  }

  /** The hint `format_error_message` adds after the message when there is a context. */
  function HelpHint(ctx: Context): (r: string)
    requires ctx.helpOptionNames != []
    ensures r == "\nTry '" + CmdHelp(ctx) + "' for more information."
  {
    "\nTry '" + CmdHelp(ctx) + "' for more information."
  }

  /** `format_error_message`: the message, followed by the hint when there is a context. */
  function FormatErrorMessage(e: ClickError): (r: string)
    requires e.ctx.Some? ==> e.ctx.value.helpOptionNames != []
    ensures StartsWith(r, FormatClickErrorMessage(e))
    ensures e.ctx.None? ==> r == FormatClickErrorMessage(e)
    ensures e.ctx.Some? ==> r[|FormatClickErrorMessage(e)|..] == HelpHint(e.ctx.value)
  {
    WithHint(FormatClickErrorMessage(e), e.ctx)
  }

  function WithHint(message: string, ctx: Option<Context>): (r: string)
    requires ctx.Some? ==> ctx.value.helpOptionNames != []
    ensures StartsWith(r, message)
    ensures ctx.None? ==> r == message
    ensures ctx.Some? ==> r[|message|..] == HelpHint(ctx.value)
  {
    match ctx
    case None => message
    case Some(c) =>
      var r := message + HelpHint(c);
      assert r[..|message|] == message;
      r
  }
}
