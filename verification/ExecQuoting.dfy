/**
 * The autostart entry (src-tauri/src/autostart.rs) and how a desktop reads its
 * Exec line back: string escapes, then argument quoting, then field codes, of a
 * value and for a program that are admissible, as in sections 4 and 7 of the
 * Desktop Entry Specification 1.5.
 */
module ExecQuoting {
  import opened Lists

  const STARTUP_ARG := "--startup"

  // ---- Writing the entry ---------------------------------------------------------------

  /** str::replace of one character. */
  function Replace(s: string, c: char, to: string): string {
    if s == "" then "" else (if s[0] == c then to else [s[0]]) + Replace(s[1..], c, to)
  }

  predicate IsSpecial(c: char) { c == '"' || c == '`' || c == '$' || c == '\\' }

  /** A backslash before every character that keeps a meaning between quotes. */
  function Escape(s: string): string {
    if s == "" then "" else (if IsSpecial(s[0]) then ['\\', s[0]] else [s[0]]) + Escape(s[1..])
  }

  function QuotedArg(path: string): string {
    Replace("\"" + Escape(Replace(path, '%', "%%")) + "\"", '\\', "\\\\")
  }

  method QuoteDesktopExecArg(path: string) returns (r: string)
    ensures r == QuotedArg(path)
  {
    var quoted := "\"";
    var chars := Replace(path, '%', "%%");
    for i := 0 to |chars|
      invariant quoted == "\"" + Escape(chars[..i])
    {
      var ch := chars[i];
      EscapedOneMore(chars[..i], ch);
      assert chars[..i + 1] == chars[..i] + [ch];
      match ch {
        case '"' | '`' | '$' | '\\' =>
          quoted := quoted + ['\\'];
          quoted := quoted + [ch];
        case _ =>
          quoted := quoted + [ch];
      }
    }
    assert chars[..|chars|] == chars;
    quoted := quoted + ['"'];
    r := Replace(quoted, '\\', "\\\\");
  }

  function DesktopExec(path: string): string { QuotedArg(path) + " " + STARTUP_ARG }

  /** A path the entry can hold: Unicode, without NUL and line ends. */
  function UnicodePath(path: Option<string>): Option<string> {
    if path.None? || '\0' in path.value || '\n' in path.value || '\r' in path.value then None else path
  }

  function Line(line: string, rest: string): string { line + "\n" + rest }

  const EXEC_KEY := "Exec="

  function EntryText(path: string): string {
    Line("[Desktop Entry]", Line("Type=Application", Line("Name=Open Console Gateway",
      EXEC_KEY + Line(DesktopExec(path), TRAILER))))
  }

  const TRAILER := "X-GNOME-Autostart-enabled=true\nHidden=false\n"

  function LinuxDesktopBody(path: Option<string>): Option<string> {
    if UnicodePath(path).None? then None else Some(EntryText(path.value))
  }

  // ---- Reading it ----------------------------------------------------------------------

  function Cons(c: char, s: Option<string>): Option<string> {
    if s.None? then None else Some([c] + s.value)
  }

  function UnescapedChar(c: char): Option<char> {
    match c
    case 's' => Some(' ')
    case 'n' => Some('\n')
    case 't' => Some('\t')
    case 'r' => Some('\r')
    case '\\' => Some('\\')
    case _ => None
  }

  /** The escapes of a value of type string; None if one is unknown or cut short. */
  function Unescape(s: string): Option<string> {
    if s == "" then Some("")
    else if s[0] != '\\' then Cons(s[0], Unescape(s[1..]))
    else if |s| == 1 || UnescapedChar(s[1]).None? then None
    else Cons(UnescapedChar(s[1]).value, Unescape(s[2..]))
  }

  /** An argument up to its closing quote, and what follows it. */
  function ReadQuoted(s: string): (r: Option<(string, string)>)
    ensures r.Some? ==> |r.value.1| < |s|
  {
    if s == "" then None
    else if s[0] == '"' then Some(("", s[1..]))
    else if s[0] == '\\' then
      if |s| == 1 || !IsSpecial(s[1]) then None
      else
        var r := ReadQuoted(s[2..]);
        if r.None? then None else Some(([s[1]] + r.value.0, r.value.1))
    else if IsSpecial(s[0]) then None
    else
      var r := ReadQuoted(s[1..]);
      if r.None? then None else Some(([s[0]] + r.value.0, r.value.1))
  }

  /** Characters an argument may contain only between quotes. */
  predicate IsReserved(c: char) {
    match c
    case ' ' | '\t' | '\n' | '"' | '\'' | '\\' | '>' | '<' | '~' | '|' | '&' | ';' | '$' | '*' | '?' | '#' | '(' | ')' | '`' => true
    case _ => false
  }

  /** An unquoted argument: everything up to the next space. */
  function Word(s: string): (w: string)
    ensures w <= s && (|w| < |s| ==> s[|w|] == ' ')
  {
    if s == "" || s[0] == ' ' then "" else [s[0]] + Word(s[1..])
  }

  /** The arguments of a command line, separated by spaces. */
  function Arguments(s: string): Option<seq<string>>
    decreases |s|
  {
    if s == "" then Some([])
    else if s[0] == ' ' then Arguments(s[1..])
    else if s[0] == '"' then
      var arg := ReadQuoted(s[1..]);
      if arg.None? || (arg.value.1 != "" && arg.value.1[0] != ' ') then None
      else
        var rest := Arguments(arg.value.1);
        if rest.None? then None else Some([arg.value.0] + rest.value)
    else
      var word := Word(s);
      if exists c :: c in word && IsReserved(c) then None
      else
        var rest := Arguments(s[|word|..]);
        if rest.None? then None else Some([word] + rest.value)
  }

  /** `%%` stands for a per cent sign; None if there is a field code. */
  function Expand(s: string): Option<string> {
    if s == "" then Some("")
    else if s[0] != '%' then Cons(s[0], Expand(s[1..]))
    else if |s| == 1 || s[1] != '%' then None
    else Cons('%', Expand(s[2..]))
  }

  function ExpandAll(args: seq<string>): Option<seq<string>> {
    if args == [] then Some([])
    else
      var first, rest := Expand(args[0]), ExpandAll(args[1..]);
      if first.None? || rest.None? then None else Some([first.value] + rest.value)
  }

  /** The program and its arguments. */
  function Command(exec: string): Option<seq<string>> {
    var line := Unescape(exec);
    if line.None? then None
    else
      var args := Arguments(line.value);
      if args.None? then None else ExpandAll(args.value)
  }

  /** The first line of a text, without its end. */
  function FirstLine(s: string): (line: string)
    ensures line <= s && '\n' !in line
    ensures |line| < |s| ==> s[|line|] == '\n'
  {
    if s == "" || s[0] == '\n' then "" else [s[0]] + FirstLine(s[1..])
  }

  /** The value of the first Exec line of an entry. */
  function ExecOf(text: string): Option<string>
    decreases |text|
  {
    var line := FirstLine(text);
    if EXEC_KEY <= line then Some(line[|EXEC_KEY|..])
    else if |line| == |text| then None
    else ExecOf(text[|line| + 1..])
  }

  /** Values of type string hold ASCII characters that are not control characters (section 4). */
  predicate IsStringValue(s: string) {
    forall i :: 0 <= i < |s| ==> ' ' <= s[i] <= '~'
  }

  /** The program is given by its name or path, which must not contain an equal sign (section 7). */
  predicate NamesProgram(command: seq<string>) {
    command != [] && command[0] != "" && '=' !in command[0]
  }

  /** What a desktop runs for an Exec value, if it is one the standard admits. */
  function Execute(exec: string): Option<seq<string>> {
    if !IsStringValue(exec) || Command(exec).None? || !NamesProgram(Command(exec).value) then None else Command(exec)
  }

  /** What a desktop runs for an entry. */
  function Launch(text: string): Option<seq<string>> {
    if ExecOf(text).None? then None else Execute(ExecOf(text).value)
  }

  // ---- Each layer undone ---------------------------------------------------------------

  lemma {:induction false} EscapeConcat(s: string, t: string)
    ensures Escape(s + t) == Escape(s) + Escape(t)
  {
    if s == "" {
      assert s + t == t;
    } else {
      assert (s + t)[1..] == s[1..] + t;
      EscapeConcat(s[1..], t);
    }
  }

  lemma EscapedOneMore(s: string, c: char)
    ensures "\"" + Escape(s + [c]) == "\"" + Escape(s) + if IsSpecial(c) then ['\\'] + [c] else [c]
  {
    EscapeConcat(s, [c]);
    assert [c][1..] == "" && Escape("") == "";
    assert Escape([c]) == if IsSpecial(c) then ['\\', c] else [c];
  }

  lemma {:induction false} ReplaceConcat(s: string, t: string, c: char, to: string)
    ensures Replace(s + t, c, to) == Replace(s, c, to) + Replace(t, c, to)
  {
    if s == "" {
      assert s + t == t;
    } else {
      assert (s + t)[1..] == s[1..] + t;
      ReplaceConcat(s[1..], t, c, to);
    }
  }

  lemma {:induction false} ReplaceAbsent(s: string, c: char, to: string)
    requires c !in s
    ensures Replace(s, c, to) == s
  {
    if s != "" { ReplaceAbsent(s[1..], c, to); }
  }

  lemma {:induction false} UnescapeDoubled(s: string)
    ensures Unescape(Replace(s, '\\', "\\\\")) == Some(s)
  {
    if s != "" {
      UnescapeDoubled(s[1..]);
      assert s == [s[0]] + s[1..];
      var rest := Replace(s[1..], '\\', "\\\\");
      if s[0] == '\\' {
        assert ("\\\\" + rest)[2..] == rest;
      } else {
        assert ([s[0]] + rest)[1..] == rest;
      }
    }
  }

  lemma {:induction false} ReadEscaped(s: string, rest: string)
    ensures ReadQuoted(Escape(s) + "\"" + rest) == Some((s, rest))
  {
    var text := Escape(s) + "\"" + rest;
    if s == "" {
      assert text[1..] == rest;
    } else {
      var more := Escape(s[1..]) + "\"" + rest;
      ReadEscaped(s[1..], rest);
      assert s == [s[0]] + s[1..];
      if IsSpecial(s[0]) {
        assert text == ['\\', s[0]] + more && text[2..] == more;
      } else {
        assert text == [s[0]] + more && text[1..] == more;
      }
    }
  }

  /** Without its closing quote, an argument is not read. */
  lemma {:induction false} ReadUnclosed(s: string)
    ensures ReadQuoted(Escape(s)) == None
  {
    if s != "" {
      ReadUnclosed(s[1..]);
      if IsSpecial(s[0]) {
        assert Escape(s)[2..] == Escape(s[1..]);
      } else {
        assert Escape(s)[1..] == Escape(s[1..]);
      }
    }
  }

  lemma {:induction false} ExpandDoubled(s: string)
    ensures Expand(Replace(s, '%', "%%")) == Some(s)
  {
    if s != "" {
      ExpandDoubled(s[1..]);
      assert s == [s[0]] + s[1..];
      var rest := Replace(s[1..], '%', "%%");
      if s[0] == '%' {
        assert ("%%" + rest)[2..] == rest;
      } else {
        assert ([s[0]] + rest)[1..] == rest;
      }
    }
  }

  predicate Plain(s: string) {
    forall i :: 0 <= i < |s| ==> 'a' <= s[i] <= 'z' || s[i] == '-'
  }

  lemma {:induction false} PlainWord(s: string)
    requires Plain(s)
    ensures Word(s) == s
  {
    if s != "" {
      assert s == [s[0]] + s[1..];
      PlainWord(s[1..]);
    }
  }

  lemma PlainArgument(s: string)
    requires s != "" && Plain(s)
    ensures Arguments(" " + s) == Some([s])
  {
    assert (" " + s)[1..] == s;
    PlainWord(s);
    assert s[|s|..] == "" && Arguments("") == Some([]);
    assert forall c :: c in s ==> 'a' <= c <= 'z' || c == '-';
    assert Arguments(s) == Some([s] + []);
    assert [s] + [] == [s];
  }

  lemma UnescapedLine(quoted: string, rest: string)
    requires '\\' !in rest
    ensures Unescape(Replace(quoted, '\\', "\\\\") + rest) == Some(quoted + rest)
  {
    UnescapeDoubled(quoted + rest);
    ReplaceConcat(quoted, rest, '\\', "\\\\");
    ReplaceAbsent(rest, '\\', "\\\\");
  }

  lemma QuotedArguments(arg: string, next: string)
    requires next != "" && Plain(next)
    ensures Arguments("\"" + Escape(arg) + "\"" + (" " + next)) == Some([arg, next])
  {
    var rest := " " + next;
    var line := "\"" + Escape(arg) + "\"" + rest;
    assert line[1..] == Escape(arg) + "\"" + rest;
    ReadEscaped(arg, rest);
    PlainArgument(next);
    assert [arg] + [next] == [arg, next];
  }

  lemma ExpandedPair(path: string, next: string)
    requires '%' !in next
    ensures ExpandAll([Replace(path, '%', "%%"), next]) == Some([path, next])
  {
    var arg := Replace(path, '%', "%%");
    ExpandDoubled(path);
    ExpandDoubled(next);
    ReplaceAbsent(next, '%', "%%");
    assert [arg, next][1..] == [next] && [next][1..] == [];
    assert ExpandAll([next]) == Some([next] + []);
    assert [next] + [] == [next] && [path] + [next] == [path, next];
  }

  /** The Exec value names the path as exactly one argument, followed by --startup; for any path at all. */
  lemma ExecRoundTrip(path: string)
    ensures Command(DesktopExec(path)) == Some([path, STARTUP_ARG])
  {
    var arg := Replace(path, '%', "%%");
    var quoted, rest := "\"" + Escape(arg) + "\"", " " + STARTUP_ARG;
    assert DesktopExec(path) == Replace(quoted, '\\', "\\\\") + rest;
    UnescapedLine(quoted, rest);
    QuotedArguments(arg, STARTUP_ARG);
    ExpandedPair(path, STARTUP_ARG);
  }

  // ---- The entry as a file -------------------------------------------------------------

  lemma {:induction false} FirstLineOf(line: string, rest: string)
    requires '\n' !in line
    ensures FirstLine(Line(line, rest)) == line
  {
    var text := Line(line, rest);
    if line != "" {
      assert line == [line[0]] + line[1..];
      assert text[1..] == Line(line[1..], rest);
      FirstLineOf(line[1..], rest);
    }
  }

  lemma SkipLine(line: string, rest: string)
    requires '\n' !in line && line != "" && line[0] != EXEC_KEY[0]
    ensures ExecOf(Line(line, rest)) == ExecOf(rest)
  {
    FirstLineOf(line, rest);
    assert Line(line, rest)[|line| + 1..] == rest;
  }

  lemma {:induction false} PrefixedLine(key: string, rest: string)
    requires '\n' !in key
    ensures FirstLine(key + rest) == key + FirstLine(rest)
  {
    if key == "" {
      assert key + rest == rest;
    } else {
      assert key == [key[0]] + key[1..] && (key + rest)[1..] == key[1..] + rest;
      PrefixedLine(key[1..], rest);
    }
  }

  lemma ExecFound(rest: string)
    ensures ExecOf(EXEC_KEY + rest) == Some(FirstLine(rest))
  {
    PrefixedLine(EXEC_KEY, rest);
  }

  lemma GroupLine(rest: string)
    ensures ExecOf(Line("[Desktop Entry]", rest)) == ExecOf(rest)
  {
    SkipLine("[Desktop Entry]", rest);
  }

  lemma TypeLine(rest: string)
    ensures ExecOf(Line("Type=Application", rest)) == ExecOf(rest)
  {
    SkipLine("Type=Application", rest);
  }

  lemma NameLine(rest: string)
    ensures ExecOf(Line("Name=Open Console Gateway", rest)) == ExecOf(rest)
  {
    SkipLine("Name=Open Console Gateway", rest);
  }

  /** The entry's Exec value is the first line of what was written for it. */
  lemma ExecOfEntry(path: string)
    ensures ExecOf(EntryText(path)) == Some(FirstLine(Line(DesktopExec(path), TRAILER)))
  {
    var exec := Line(DesktopExec(path), TRAILER);
    var named := Line("Name=Open Console Gateway", EXEC_KEY + exec);
    GroupLine(Line("Type=Application", named));
    TypeLine(named);
    NameLine(EXEC_KEY + exec);
    ExecFound(exec);
  }

  /** Quoting without the closing quote. */
  function OpenArg(path: string): string {
    Replace("\"" + Escape(Replace(path, '%', "%%")), '\\', "\\\\")
  }

  lemma {:induction false} NoNewLines(s: string, c: char, to: string)
    requires '\n' !in s && '\n' !in to
    ensures '\n' !in Replace(s, c, to) && '\n' !in Escape(s)
  {
    if s != "" { NoNewLines(s[1..], c, to); }
  }

  lemma OpenArgIsOneLine(path: string)
    requires '\n' !in path
    ensures '\n' !in OpenArg(path)
  {
    NoNewLines(path, '%', "%%");
    var arg := Replace(path, '%', "%%");
    NoNewLines(arg, '%', "%%");
    NoNewLines("\"" + Escape(arg), '\\', "\\\\");
  }

  /** Quoting works character by character. */
  lemma OpenArgConcat(a: string, b: string)
    ensures OpenArg(a + b) == OpenArg(a) + Replace(Escape(Replace(b, '%', "%%")), '\\', "\\\\")
  {
    var x, y := Replace(a, '%', "%%"), Replace(b, '%', "%%");
    ReplaceConcat(a, b, '%', "%%");
    EscapeConcat(x, y);
    assert "\"" + Escape(x + y) == ("\"" + Escape(x)) + Escape(y);
    ReplaceConcat("\"" + Escape(x), Escape(y), '\\', "\\\\");
  }

  lemma OpenArgIsNoCommand(path: string)
    ensures Command(OpenArg(path)) == None
  {
    var arg := Replace(path, '%', "%%");
    UnescapeDoubled("\"" + Escape(arg));
    assert ("\"" + Escape(arg))[1..] == Escape(arg);
    ReadUnclosed(arg);
  }

  lemma DesktopExecIsClosed(path: string)
    ensures DesktopExec(path) == OpenArg(path) + ("\"" + " " + STARTUP_ARG)
  {
    var open := "\"" + Escape(Replace(path, '%', "%%"));
    ReplaceConcat(open, "\"", '\\', "\\\\");
    ReplaceAbsent("\"", '\\', "\\\\");
  }

  lemma SplitAtNewLine(path: string) returns (a: string, b: string)
    requires '\n' in path
    ensures path == a + ("\n" + b) && '\n' !in a
  {
    a := FirstLine(path);
    assert |a| < |path|;
    b := path[|a| + 1..];
  }

  // ---- Which paths launch --------------------------------------------------------------

  /** The paths an entry can launch: not empty, of printable ASCII characters other than the equal sign. */
  predicate Launchable(path: string) {
    path != "" && IsStringValue(path) && '=' !in path
  }

  lemma StringValueConcat(s: string, t: string)
    ensures IsStringValue(s + t) <==> IsStringValue(s) && IsStringValue(t)
  {
    if IsStringValue(s + t) {
      assert forall i :: 0 <= i < |s| ==> (s + t)[i] == s[i];
      assert forall i :: 0 <= i < |t| ==> (s + t)[|s| + i] == t[i];
    }
  }

  lemma {:induction false} ReplaceKeepsStringValues(s: string, c: char, to: string)
    requires ' ' <= c <= '~' && to != "" && IsStringValue(to)
    ensures IsStringValue(Replace(s, c, to)) <==> IsStringValue(s)
  {
    if s != "" {
      ReplaceKeepsStringValues(s[1..], c, to);
      var first := if s[0] == c then to else [s[0]];
      StringValueConcat(first, Replace(s[1..], c, to));
      StringValueConcat([s[0]], s[1..]);
      assert s == [s[0]] + s[1..] && [s[0]][0] == s[0];
    }
  }

  lemma {:induction false} EscapeKeepsStringValues(s: string)
    ensures IsStringValue(Escape(s)) <==> IsStringValue(s)
  {
    if s != "" {
      EscapeKeepsStringValues(s[1..]);
      var first := if IsSpecial(s[0]) then ['\\', s[0]] else [s[0]];
      StringValueConcat(first, Escape(s[1..]));
      StringValueConcat([s[0]], s[1..]);
      assert s == [s[0]] + s[1..] && first[|first| - 1] == s[0] && [s[0]][0] == s[0];
    }
  }

  lemma ExecIsStringValue(path: string)
    ensures IsStringValue(DesktopExec(path)) <==> IsStringValue(path)
  {
    var arg := Replace(path, '%', "%%");
    ReplaceKeepsStringValues(path, '%', "%%");
    EscapeKeepsStringValues(arg);
    QuotedIsStringValue(Escape(arg));
    ReplaceKeepsStringValues("\"" + Escape(arg) + "\"", '\\', "\\\\");
    StringValueConcat(QuotedArg(path) + " ", STARTUP_ARG);
    StringValueConcat(QuotedArg(path), " ");
  }

  lemma QuotedIsStringValue(s: string)
    ensures IsStringValue("\"" + s + "\"") <==> IsStringValue(s)
  {
    StringValueConcat("\"" + s, "\"");
    StringValueConcat("\"", s);
  }

  lemma WholeLine(path: string, after: string)
    requires '\n' !in path
    ensures Execute(FirstLine(Line(DesktopExec(path), after))) == if Launchable(path) then Some([path, STARTUP_ARG]) else None
  {
    OpenArgIsOneLine(path);
    DesktopExecIsClosed(path);
    FirstLineOf(DesktopExec(path), after);
    ExecRoundTrip(path);
    ExecIsStringValue(path);
  }

  lemma CutLine(path: string, after: string)
    requires '\n' in path
    ensures Execute(FirstLine(Line(DesktopExec(path), after))) == None && !Launchable(path)
  {
    DesktopExecIsClosed(path);
    var rest := Line("\"" + " " + STARTUP_ARG, after);
    var a, b := SplitAtNewLine(path);
    BrokenLine(a, b, rest);
    OpenArgIsNoCommand(a);
    ClosedLine(OpenArg(path), "\"" + " " + STARTUP_ARG, after);
    assert !(' ' <= '\n');
  }

  lemma ClosedLine(open: string, close: string, after: string)
    ensures Line(open + close, after) == open + Line(close, after)
  {
  }

  /**
   * The entry launches the executable at `path`, with --startup and nothing
   * else, if and only if the path is launchable; otherwise it launches nothing.
   */
  lemma EntryLaunchesThePath(path: string)
    ensures Launch(EntryText(path)) == Some([path, STARTUP_ARG]) <==> Launchable(path)
    ensures Launch(EntryText(path)) == None <==> !Launchable(path)
  {
    ExecOfEntry(path);
    if '\n' in path { CutLine(path, TRAILER); } else { WholeLine(path, TRAILER); }
  }

  lemma BrokenLine(a: string, b: string, rest: string)
    requires '\n' !in a
    ensures FirstLine(OpenArg(a + ("\n" + b)) + rest) == OpenArg(a)
  {
    var tail := Replace(Escape(Replace(b, '%', "%%")), '\\', "\\\\");
    OpenArgConcat(a, "\n" + b);
    NewLineStays(b);
    OpenArgIsOneLine(a);
    FirstLineOf(OpenArg(a), tail + rest);
    Regrouped(OpenArg(a), tail, rest);
  }

  lemma Regrouped(line: string, tail: string, rest: string)
    ensures line + ("\n" + tail) + rest == Line(line, tail + rest)
  {
  }

  lemma NewLineStays(b: string)
    ensures Replace(Escape(Replace("\n" + b, '%', "%%")), '\\', "\\\\")
         == "\n" + Replace(Escape(Replace(b, '%', "%%")), '\\', "\\\\")
  {
    ReplaceConcat("\n", b, '%', "%%");
    ReplaceAbsent("\n", '%', "%%");
    EscapeConcat("\n", Replace(b, '%', "%%"));
    assert Escape("\n") == "\n" by { assert "\n"[1..] == ""; }
    ReplaceConcat("\n", Escape(Replace(b, '%', "%%")), '\\', "\\\\");
    ReplaceAbsent("\n", '\\', "\\\\");
  }

  /** An entry that is written launches its executable if and only if the path is launchable, which the guard does not check. */
  lemma WrittenEntriesLaunch(path: Option<string>)
    requires LinuxDesktopBody(path).Some?
    ensures path.Some?
    ensures Launch(LinuxDesktopBody(path).value) == Some([path.value, STARTUP_ARG]) <==> Launchable(path.value)
    ensures Launch(LinuxDesktopBody(path).value) == None <==> !Launchable(path.value)
  {
    EntryLaunchesThePath(path.value);
  }

  /** The guard lets the path through, and the entry written for it launches nothing. */
  predicate WrittenInVain(path: string) {
    LinuxDesktopBody(Some(path)).Some? && Launch(LinuxDesktopBody(Some(path)).value) == None
  }

  /** The paths for which that happens. */
  lemma WrittenInVainExactly(path: string)
    ensures WrittenInVain(path) <==>
      && '\0' !in path && '\n' !in path && '\r' !in path
      && (path == "" || '=' in path || exists i :: 0 <= i < |path| && !(' ' <= path[i] <= '~'))
  {
    if UnicodePath(Some(path)).Some? { WrittenEntriesLaunch(Some(path)); }
  }

  lemma EqualSignIsWrittenInVain()
    ensures WrittenInVain("/opt/a=b/ocg")
  {
    var path := "/opt/a=b/ocg";
    assert path[6] == '=';
    WrittenInVainExactly(path);
  }

  lemma TabIsWrittenInVain()
    ensures WrittenInVain("/opt/a\tb/ocg")
  {
    var path := "/opt/a\tb/ocg";
    assert path[6] == '\t' && !IsStringValue(path);
    WrittenInVainExactly(path);
  }

  lemma LetterOutsideAsciiIsWrittenInVain()
    ensures WrittenInVain("/opt/\U{00E9}/ocg")
  {
    var path := "/opt/\U{00E9}/ocg";
    assert path[5] == '\U{00E9}' && !IsStringValue(path);
    WrittenInVainExactly(path);
  }
}
