/** The command-line tokenizer of the tiny shell (tsh.c): arguments are cut out of a copy of the line by
    overwriting their delimiters with terminators. */
module Tsh {
  import opened Prelude

  const MAXLINE: int := 1024
  const MAXARGS: int := 128
  const NUL: char := '\0'
  const NULL: int := -1

  /** Where `c` first occurs in `s`, or the length of `s`. */
  ghost function IndexOf(s: string, c: char): (r: nat)
    ensures r <= |s| && (r < |s| ==> s[r] == c) && forall j :: 0 <= j < r ==> s[j] != c
  {
    if |s| == 0 || s[0] == c then 0 else 1 + IndexOf(s[1..], c)
  }

  /** How many spaces `s` begins with. */
  ghost function Leading(s: string): (r: nat)
    ensures r <= |s| && (r < |s| ==> s[r] != ' ') && forall j :: 0 <= j < r ==> s[j] == ' '
  {
    if |s| == 0 || s[0] != ' ' then 0 else 1 + Leading(s[1..])
  }

  /** The arguments of a line whose newline has become a space. What follows an unclosed quote is lost. */
  ghost function Tokens(s: string): seq<string>
    decreases |s|, 2
  {
    Cut(s[Leading(s)..])
  }

  ghost function Cut(t: string): seq<string>
    decreases |t|, 1
  {
    if t == "" then [] else if t[0] == '\'' then CutAt(t[1..], '\'') else CutAt(t, ' ')
  }

  ghost function CutAt(u: string, c: char): seq<string>
    decreases |u|, 0
  {
    var j := IndexOf(u, c);
    if j == |u| then [] else [u[..j]] + Tokens(u[j + 1..])
  }

  // What a line means, independently of how it is scanned.

  /** A word of the line and the spaces before it. */
  datatype Word = Quoted(lead: nat, text: string) | Plain(lead: nat, text: string)

  ghost predicate WordOk(w: Word) {
    match w
    case Quoted(_, text) => '\'' !in text
    case Plain(_, text) => text != "" && ' ' !in text && text[0] != '\''
  }

  function Spaces(n: nat): string {
    seq(n, _ => ' ')
  }

  ghost function Written(w: Word): string {
    Spaces(w.lead) + Body(w)
  }

  ghost function Body(w: Word): string {
    match w
    case Quoted(_, text) => "'" + text + "'"
    case Plain(_, text) => text
  }

  /** A plain word must be followed by a space before the next. */
  ghost predicate WordsOk(ws: seq<Word>) {
    && (forall k :: 0 <= k < |ws| ==> WordOk(ws[k]))
    && (forall k {:trigger ws[k].Plain?} :: 0 <= k < |ws| - 1 && ws[k].Plain? ==> ws[k + 1].lead > 0)
  }

  ghost function Line(ws: seq<Word>, rest: string): string {
    if |ws| == 0 then rest else Written(ws[0]) + Line(ws[1..], rest)
  }

  ghost function Texts(ws: seq<Word>): seq<string> {
    if |ws| == 0 then [] else [ws[0].text] + Texts(ws[1..])
  }

  /** What can follow the last word: nothing but spaces, or a quote that is never closed. */
  ghost predicate RestOk(rest: string) {
    var t := rest[Leading(rest)..];
    t == "" || (t[0] == '\'' && '\'' !in t[1..])
  }

  lemma LeadingIs(s: string, n: nat)
    requires n <= |s| && (forall j :: 0 <= j < n ==> s[j] == ' ') && (n < |s| ==> s[n] != ' ')
    ensures Leading(s) == n
  {
  }

  lemma CutIs(u: string, c: char, text: string, more: string)
    requires u == text + [c] + more && c !in text
    ensures CutAt(u, c) == [text] + Tokens(more)
  {
    assert u[|text|] == c;
    assert forall j :: 0 <= j < |text| ==> u[j] == text[j] && text[j] in text;
    assert u[..|text|] == text && u[|text| + 1..] == more;
  }

  lemma SkipLead(lead: nat, t: string)
    requires t != "" && t[0] != ' '
    ensures Tokens(Spaces(lead) + t) == Cut(t)
  {
    LeadingIs(Spaces(lead) + t, lead);
    assert (Spaces(lead) + t)[lead..] == t;
  }

  lemma CutBody(w: Word, more: string)
    requires WordOk(w) && (w.Plain? ==> more != "" && more[0] == ' ')
    ensures Cut(Body(w) + more) == [w.text] + Tokens(if w.Plain? then more[1..] else more)
  {
    var t := Body(w) + more;
    match w
    case Quoted(lead, text) =>
      assert t[1..] == text + ['\''] + more;
      CutIs(t[1..], '\'', text, more);
    case Plain(lead, text) =>
      assert more == [' '] + more[1..];
      Regroup(text, [' '], more[1..]);
      CutIs(t, ' ', text, more[1..]);
  }

  lemma FirstWord(w: Word, more: string)
    requires WordOk(w) && (w.Plain? ==> more != "" && more[0] == ' ')
    ensures Tokens(Written(w) + more) == [w.text] + Tokens(if w.Plain? then more[1..] else more)
  {
    CutBody(w, more);
    SkipLead(w.lead, Body(w) + more);
    Regroup(Spaces(w.lead), Body(w), more);
  }

  /** A space more in front changes nothing. */
  lemma OneSpace(s: string)
    requires s != "" && s[0] == ' '
    ensures Tokens(s) == Tokens(s[1..])
  {
    var n := Leading(s[1..]);
    LeadingIs(s, n + 1);
    assert s[1..][n..] == s[n + 1..];
  }

  /** The tokenizer undoes writing: any words, quoted or plain, with any spaces between them. */
  lemma {:induction false} TokensOfLine(ws: seq<Word>, rest: string)
    requires WordsOk(ws) && RestOk(rest) && (|ws| > 0 && ws[|ws| - 1].Plain? ==> rest != "" && rest[0] == ' ')
    ensures Tokens(Line(ws, rest)) == Texts(ws)
    decreases |ws|
  {
    if |ws| > 0 {
      var more := Line(ws[1..], rest);
      TokensOfLine(ws[1..], rest);
      if |ws| > 1 && ws[0].Plain? {
        assert Line(ws[1..], rest)[0] == Written(ws[1])[0] == ' ';
      }
      FirstWord(ws[0], more);
      if ws[0].Plain? {
        OneSpace(more);
      }
    } else {
      NoMore(rest);
    }
  }

  lemma NoMore(rest: string)
    requires RestOk(rest)
    ensures Tokens(rest) == []
  {
    var t := rest[Leading(rest)..];
    if t != "" {
      assert forall i :: 0 <= i < |t[1..]| ==> t[1..][i] in t[1..];
      assert CutAt(t[1..], '\'') == [];
    }
    assert Cut(t) == [];
  }

  /** Every line that ends in a space is words and a rest, so the arguments are always the texts of its words. */
  lemma {:induction false} Reading(s: string) returns (ws: seq<Word>, rest: string)
    requires s == "" || s[|s| - 1] == ' '
    ensures Read(s, ws, rest) && Tokens(s) == Texts(ws)
    decreases |s|
  {
    ws, rest := Split(s);
    TokensOfLine(ws, rest);
  }

  ghost predicate Read(s: string, ws: seq<Word>, rest: string) {
    && WordsOk(ws) && RestOk(rest) && (|ws| > 0 && ws[|ws| - 1].Plain? ==> rest != "" && rest[0] == ' ')
    && s == Line(ws, rest)
  }

  lemma ReadFirst(s: string, w: Word, more: string, ws: seq<Word>, rest: string)
    requires WordOk(w) && s == Written(w) + more && Read(more, ws, rest)
    requires w.Plain? ==> more != "" && more[0] == ' '
    ensures Read(s, [w] + ws, rest)
  {
    var all := [w] + ws;
    assert all[1..] == ws;
    if w.Plain? && |ws| > 0 {
      assert more[0] == Written(ws[0])[0];
    }
  }

  lemma QuotedOf(t: string) returns (found: bool, text: string, more: string)
    requires t != "" && t[0] == '\''
    ensures !found ==> '\'' !in t[1..]
    ensures found ==> '\'' !in text && t == "'" + text + "'" + more && (more == "" || more[|more| - 1] == t[|t| - 1])
  {
    var u := t[1..];
    var j := IndexOf(u, '\'');
    found, text, more := j < |u|, u[..j], "";
    if found {
      more := u[j + 1..];
      assert u == text + "'" + more;
    }
  }

  lemma PlainOf(t: string) returns (text: string, more: string)
    requires t != "" && t[0] != '\'' && t[0] != ' ' && t[|t| - 1] == ' '
    ensures t == text + more && WordOk(Plain(0, text)) && more != "" && more[0] == ' ' == more[|more| - 1]
  {
    var j := IndexOf(t, ' ');
    text, more := t[..j], t[j..];
  }

  lemma BodyOf(t: string, n: nat) returns (found: bool, w: Word, more: string)
    requires t != "" && t[0] != ' ' && t[|t| - 1] == ' '
    ensures !found ==> t[0] == '\'' && '\'' !in t[1..]
    ensures found ==> WordOk(w) && w.lead == n && t == Body(w) + more && (more == "" || more[|more| - 1] == ' ')
    ensures found && w.Plain? ==> more != "" && more[0] == ' '
  {
    var text;
    if t[0] == '\'' {
      found, text, more := QuotedOf(t);
      w := Quoted(n, text);
    } else {
      text, more := PlainOf(t);
      found, w := true, Plain(n, text);
    }
  }

  lemma FirstOf(s: string) returns (found: bool, w: Word, more: string)
    requires s == "" || s[|s| - 1] == ' '
    ensures !found ==> RestOk(s)
    ensures found ==> WordOk(w) && s == Written(w) + more && |more| < |s| && (more == "" || more[|more| - 1] == ' ')
    ensures found && w.Plain? ==> more != "" && more[0] == ' '
  {
    var n := Leading(s);
    var t := s[n..];
    found, w, more := false, Quoted(n, ""), "";
    if t != "" {
      found, w, more := BodyOf(t, n);
      assert s == Spaces(n) + t;
      if found {
        Regroup(Spaces(n), Body(w), more);
      }
    }
  }

  lemma {:induction false} Split(s: string) returns (ws: seq<Word>, rest: string)
    requires s == "" || s[|s| - 1] == ' '
    ensures Read(s, ws, rest)
    decreases |s|
  {
    var found, w, more := FirstOf(s);
    if found {
      ws, rest := Split(more);
      ReadFirst(s, w, more, ws, rest);
      ws := [w] + ws;
    } else {
      ws, rest := [], s;
    }
  }

  // The scanner.

  /** The line with its last character, which should be a newline, turned into a space. */
  ghost function Ended(cmdline: string): string
    requires cmdline != ""
  {
    cmdline[..|cmdline| - 1] + " "
  }

  /** What a user types: words, spaces after the last, and the newline. */
  ghost function CommandLine(ws: seq<Word>, trail: nat): string {
    Line(ws, Spaces(trail)) + "\n"
  }

  lemma {:induction false} LineMore(ws: seq<Word>, rest: string, more: string)
    ensures Line(ws, rest) + more == Line(ws, rest + more)
    decreases |ws|
  {
    if |ws| > 0 {
      LineMore(ws[1..], rest, more);
      assert Line(ws, rest) + more == Written(ws[0]) + (Line(ws[1..], rest) + more);
    }
  }

  lemma {:induction false} TextsMatch(ws: seq<Word>)
    ensures |Texts(ws)| == |ws| && forall i :: 0 <= i < |ws| ==> Texts(ws)[i] == ws[i].text
    decreases |ws|
  {
    if |ws| > 0 {
      TextsMatch(ws[1..]);
    }
  }

  /** Typed words come back as they were meant. */
  lemma ParsesBack(ws: seq<Word>, trail: nat)
    requires WordsOk(ws)
    ensures Tokens(Ended(CommandLine(ws, trail))) == Texts(ws)
  {
    var rest := Spaces(trail) + " ";
    LineMore(ws, Spaces(trail), " ");
    assert Ended(CommandLine(ws, trail)) == Line(ws, rest);
    LeadingIs(rest, trail + 1);
    TokensOfLine(ws, rest);
  }

  /** Every argument in quotes, and one space between any two. */
  ghost function QuoteAll(args: seq<string>): seq<Word> {
    seq(|args|, i requires 0 <= i < |args| => Quoted(if i == 0 then 0 else 1, args[i]))
  }

  lemma {:induction false} TextsAre(ws: seq<Word>, args: seq<string>)
    requires |ws| == |args| && forall i :: 0 <= i < |ws| ==> ws[i].text == args[i]
    ensures Texts(ws) == args
    decreases |ws|
  {
    if |ws| > 0 {
      TextsAre(ws[1..], args[1..]);
      assert args == [args[0]] + args[1..];
    }
  }

  /** Quoting is undone, for any arguments without a quote in them, spaces and empty arguments included. */
  lemma QuotingInverts(args: seq<string>)
    requires forall i :: 0 <= i < |args| ==> '\'' !in args[i]
    ensures Tokens(Ended(CommandLine(QuoteAll(args), 0))) == args
  {
    TextsAre(QuoteAll(args), args);
    ParsesBack(QuoteAll(args), 0);
  }

  /** What strchr answers from `p` on. */
  ghost function Delim(line: string, p: int, c: char): int
    requires 0 <= p <= |line|
  {
    var j := IndexOf(line[p..], c);
    if j == |line| - p then NULL else p + j
  }

  /** Where the spaces from `from` on end. */
  ghost function Start(line: string, from: int): (b: int)
    requires 0 <= from <= |line|
    ensures from <= b <= |line|
  {
    from + Leading(line[from..])
  }

  ghost predicate QuoteAt(line: string, b: int) {
    0 <= b < |line| && line[b] == '\''
  }

  /** The arguments `ts` are what lies between `b` and `d`, and those after `d`; or none if there is no delimiter. */
  ghost predicate StartsWith(line: string, ts: seq<string>, b: int, d: int) {
    if d == NULL then ts == []
    else 0 <= b <= d < |line| && ts == [line[b..d]] + Tokens(line[d + 1..])
  }

  lemma Advance(line: string, all: seq<string>, k: nat, b: int, d: int)
    requires k <= |all| && d != NULL && StartsWith(line, all[k..], b, d)
    ensures k < |all| && all[k] == line[b..d] && all[..k + 1] == all[..k] + [line[b..d]]
    ensures all[k + 1..] == Tokens(line[d + 1..])
  {
    var left := all[k..];
    assert all[k] == left[0];
    assert all[k + 1..] == left[1..];
  }

  lemma CutTail(line: string, p: int, c: char)
    requires 0 <= p <= |line|
    ensures StartsWith(line, CutAt(line[p..], c), p, Delim(line, p, c))
  {
    var u := line[p..];
    var j := IndexOf(u, c);
    if j < |u| {
      CutAtIs(u, c, j, line[p..p + j], line[p + j + 1..]);
    } else {
      assert CutAt(u, c) == [];
    }
  }

  lemma CutAtIs(u: string, c: char, j: nat, text: string, more: string)
    requires j < |u| && j == IndexOf(u, c) && text == u[..j] && more == u[j + 1..]
    ensures CutAt(u, c) == [text] + Tokens(more)
  {
  }

  lemma TokensFrom(line: string, from: int)
    requires 0 <= from <= |line|
    ensures Tokens(line[from..]) == Cut(line[Start(line, from)..])
  {
    assert line[from..][Leading(line[from..])..] == line[Start(line, from)..];
  }

  lemma CutFrom(line: string, b: int)
    requires 0 <= b <= |line|
    ensures Cut(line[b..]) == if QuoteAt(line, b) then CutAt(line[b + 1..], '\'') else CutAt(line[b..], ' ')
  {
    if b < |line| {
      assert line[b..][1..] == line[b + 1..];
    }
  }

  lemma TokensTail(line: string, from: int)
    requires 0 <= from <= |line|
    ensures var b := Start(line, from);
            if QuoteAt(line, b) then StartsWith(line, Tokens(line[from..]), b + 1, Delim(line, b + 1, '\''))
            else StartsWith(line, Tokens(line[from..]), b, Delim(line, b, ' '))
  {
    var b := Start(line, from);
    TokensFrom(line, from);
    CutFrom(line, b);
    if QuoteAt(line, b) {
      CutTail(line, b + 1, '\'');
    } else {
      CutTail(line, b, ' ');
    }
  }

  class Shell {
    /** The static buffer of parseline. */
    const buffer: array<char>

    constructor ()
      ensures buffer.Length == MAXLINE
    {
      buffer := new char[MAXLINE];
    }

    /** What is left to scan is still the tail of the line. */
    ghost predicate Ahead(line: string, from: int)
      reads buffer
    {
      && 0 <= from <= |line| < buffer.Length && NUL !in line
      && buffer[from..|line|] == line[from..] && buffer[|line|] == NUL
    }

    /** strchr: the first `c` from `from` on, or NULL. */
    method StrChr(from: int, c: char, ghost line: string) returns (p: int)
      requires Ahead(line, from) && c != NUL
      ensures p == Delim(line, from, c)
    {
      p := from;
      while buffer[p] != NUL
        invariant from <= p <= |line| && Ahead(line, p)
        invariant forall j :: from <= j < p ==> line[j] != c
        decreases |line| - p
      {
        assert buffer[p] == buffer[p..|line|][0] == line[p];
        if buffer[p] == c {
          return;
        }
        p := p + 1;
      }
      return NULL;
    }

    method SkipSpaces(from: int, ghost line: string) returns (buf: int)
      requires Ahead(line, from)
      ensures Ahead(line, buf) && buf == Start(line, from)
      ensures buffer[buf] == if buf < |line| then line[buf] else NUL
    {
      buf := from;
      while buffer[buf] != NUL && buffer[buf] == ' '
        invariant from <= buf <= |line| && Ahead(line, buf)
        invariant buffer[buf] == if buf < |line| then line[buf] else NUL
        invariant forall j :: from <= j < buf ==> line[j] == ' '
        decreases |line| - buf
      {
        buf := buf + 1;
        assert buf < |line| ==> buffer[buf] == buffer[buf..|line|][0] == line[buf];
      }
      LeadingIs(line[from..], buf - from);
    }

    /** The next argument: it starts at `buf` and ends before `delim`. */
    method NextArgument(from: int, ghost line: string) returns (buf: int, delim: int)
      requires Ahead(line, from)
      ensures from <= buf && StartsWith(line, Tokens(line[from..]), buf, delim)
    {
      buf, delim := NextCut(from, line);
      TokensTail(line, from);
    }

    /** The spaces are ignored, and what comes next is searched for its delimiter. */
    method NextCut(from: int, ghost line: string) returns (buf: int, delim: int)
      requires Ahead(line, from)
      ensures var b := Start(line, from);
              if QuoteAt(line, b) then buf == b + 1 && delim == Delim(line, b + 1, '\'')
              else buf == b && delim == Delim(line, b, ' ')
    {
      buf := SkipSpaces(from, line);
      if buffer[buf] == '\'' {
        buf := buf + 1;
        delim := StrChr(buf, '\'', line);
      } else {
        delim := StrChr(buf, ' ', line);
      }
    }

    /** At `p` there is the C string `t`. */
    ghost predicate StringAt(p: int, t: string)
      reads buffer
    {
      && 0 <= p && p + |t| < buffer.Length && buffer[p + |t|] == NUL
      && forall j {:trigger t[j]} :: 0 <= j < |t| ==> buffer[p + j] == t[j] != NUL
    }

    /** The first arguments are the C strings `ts`, all below `top`. */
    ghost predicate Holds(argv: array<int>, ts: seq<string>, top: nat)
      reads buffer, argv
    {
      && |ts| <= argv.Length
      && forall i {:trigger ts[i]} :: 0 <= i < |ts| ==> argv[i] + |ts[i]| < top && StringAt(argv[i], ts[i])
    }

    /** strcpy, and the newline turned into a space. */
    method CopyLine(cmdline: string)
      requires buffer.Length == MAXLINE && 1 <= |cmdline| < MAXLINE && NUL !in cmdline
      modifies buffer
      ensures Ahead(Ended(cmdline), 0)
    {
      forall i | 0 <= i < |cmdline| {
        buffer[i] := cmdline[i];
      }
      buffer[|cmdline|] := NUL;
      buffer[|cmdline| - 1] := ' ';
      assert forall i :: 0 <= i < |cmdline| - 1 ==> cmdline[i] in cmdline;
    }

    /** One argument more: it is terminated, and what is ahead of its delimiter stays. */
    method Terminate(argv: array<int>, argc: nat, ghost all: seq<string>, buf: int, delim: int, ghost top: nat,
                     ghost line: string)
      requires argc <= |all| < argv.Length && Holds(argv, all[..argc], top)
      requires delim != NULL && StartsWith(line, all[argc..], buf, delim) && top <= buf && Ahead(line, top)
      modifies buffer, argv
      ensures argc < |all| && Holds(argv, all[..argc + 1], delim + 1) && Ahead(line, delim + 1)
      ensures all[argc + 1..] == Tokens(line[delim + 1..])
    {
      Advance(line, all, argc, buf, delim);
      ghost var ts, t := all[..argc], line[buf..delim];
      argv[argc] := buf;
      buffer[delim] := NUL;
      forall i | 0 <= i < argc
        ensures argv[i] + |ts[i]| < delim + 1 && StringAt(argv[i], ts[i])
      {
      }
      assert StringAt(buf, t) by {
        assert forall j :: 0 <= j < |t| ==> t[j] == line[buf + j] && line[buf + j] in line;
      }
      assert forall i :: 0 <= i < argc + 1 ==> all[..argc + 1][i] == if i < argc then ts[i] else t;
    }

    /** parseline */
    method ParseLine(cmdline: string, argv: array<int>) returns (bg: bool)
      requires buffer.Length == MAXLINE && argv.Length == MAXARGS
      requires 1 <= |cmdline| < MAXLINE && NUL !in cmdline && |Tokens(Ended(cmdline))| < MAXARGS
      modifies buffer, argv
      ensures var ts := Tokens(Ended(cmdline));
              var n := |ts|;
              && bg == (n == 0 || (ts[n - 1] != "" && ts[n - 1][0] == '&'))
              && var kept := if n > 0 && bg then ts[..n - 1] else ts;
                 Holds(argv, kept, MAXLINE) && argv[|kept|] == NULL
    {
      CopyLine(cmdline);
      ghost var line := Ended(cmdline);
      assert line[0..] == line;
      var argc := BuildList(argv, line);
      argv[argc] := NULL;
      if argc == 0 {
        return true;
      }
      assert StringAt(argv[argc - 1], Tokens(line)[argc - 1]);
      bg := buffer[argv[argc - 1]] == '&';
      if bg {
        argc := argc - 1;
        argv[argc] := NULL;
      }
    }

    /** The argument list is built: every argument of the line, in order. */
    method BuildList(argv: array<int>, ghost line: string) returns (argc: nat)
      requires Ahead(line, 0) && |Tokens(line)| < argv.Length
      modifies buffer, argv
      ensures argc == |Tokens(line)| && Holds(argv, Tokens(line), buffer.Length)
    {
      ghost var all, top: nat := Tokens(line), 0;
      assert line[0..] == line && all[0..] == all;
      argc := 0;
      var buf, delim := NextArgument(0, line);
      while delim != NULL
        invariant Scanned(argv, all, argc, top, line, buf, delim)
        decreases |all| - argc
      {
        ghost var next := delim + 1;
        buf, delim := Step(argv, argc, all, buf, delim, top, line);
        argc, top := argc + 1, next;
      }
      assert all[..argc] == all;
    }

    /** So far `argc` arguments of the line are in the list, and the next is between `buf` and `delim`. */
    ghost predicate Scanned(argv: array<int>, all: seq<string>, argc: nat, top: nat, line: string, buf: int, delim: int)
      reads buffer, argv
    {
      && argc <= |all| && top <= buf && Ahead(line, top) && top <= buffer.Length
      && Holds(argv, all[..argc], top) && StartsWith(line, all[argc..], buf, delim)
    }

    /** One turn of the loop. */
    method Step(argv: array<int>, argc: nat, ghost all: seq<string>, buf: int, delim: int, ghost top: nat,
                ghost line: string)
      returns (nextBuf: int, nextDelim: int)
      requires |all| < argv.Length && Scanned(argv, all, argc, top, line, buf, delim) && delim != NULL
      modifies buffer, argv
      ensures argc < |all| && Scanned(argv, all, argc + 1, delim + 1, line, nextBuf, nextDelim)
    {
      Terminate(argv, argc, all, buf, delim, top, line);
      nextBuf, nextDelim := NextArgument(delim + 1, line);
    }

    /** A line typed as words, with any spaces between them: argv holds their texts, without a last
        one that starts with an ampersand, which is reported as background. */
    method ParseWords(cmdline: string, argv: array<int>, ghost ws: seq<Word>, ghost trail: nat) returns (bg: bool)
      requires buffer.Length == MAXLINE && argv.Length == MAXARGS
      requires WordsOk(ws) && |ws| < MAXARGS && cmdline == CommandLine(ws, trail) && |cmdline| < MAXLINE
      requires NUL !in cmdline
      modifies buffer, argv
      ensures bg == (|ws| == 0 || (ws[|ws| - 1].text != "" && ws[|ws| - 1].text[0] == '&'))
      ensures var kept := if |ws| > 0 && bg then |ws| - 1 else |ws|;
              && (forall i :: 0 <= i < kept ==> StringAt(argv[i], ws[i].text))
              && argv[kept] == NULL
    {
      ParsesBack(ws, trail);
      TextsMatch(ws);
      ghost var ts := Tokens(Ended(cmdline));
      bg := ParseLine(cmdline, argv);
      ghost var kept := if |ts| > 0 && bg then ts[..|ts| - 1] else ts;
      assert forall i :: 0 <= i < |kept| ==> kept[i] == ws[i].text;
    }

    /** Quoting is undone: the line that quotes every argument comes back as those arguments. */
    method ParseQuoted(cmdline: string, argv: array<int>, ghost args: seq<string>) returns (bg: bool)
      requires buffer.Length == MAXLINE && argv.Length == MAXARGS && |args| < MAXARGS
      requires forall i :: 0 <= i < |args| ==> '\'' !in args[i]
      requires cmdline == CommandLine(QuoteAll(args), 0) && |cmdline| < MAXLINE && NUL !in cmdline
      modifies buffer, argv
      ensures bg == (|args| == 0 || (args[|args| - 1] != "" && args[|args| - 1][0] == '&'))
      ensures var kept := if |args| > 0 && bg then |args| - 1 else |args|;
              && (forall i :: 0 <= i < kept ==> StringAt(argv[i], args[i]))
              && argv[kept] == NULL
    {
      ghost var ws := QuoteAll(args);
      bg := ParseWords(cmdline, argv, ws, 0);
      assert forall i :: 0 <= i < |args| ==> ws[i].text == args[i];
    }
  }
}
