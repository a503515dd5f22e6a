/** Quoting an argument vector for `su -c`, and the shell that reads it. */
module ShellQuote {
  import opened Common

  // ----- the text the program writes -----

  const QUOTE := '\''

  /** Ends the quoted part, adds one quote behind a backslash, and starts a new part. */
  const ESCAPED := "'\\''"

  function Escape(arg: string): string {
    if arg == "" then "" else (if arg[0] == QUOTE then ESCAPED else [arg[0]]) + Escape(arg[1..])
  }

  function Quote(arg: string): string {
    [QUOTE] + (Escape(arg) + [QUOTE])
  }

  function QuoteAll(args: seq<string>): string {
    if args == [] then ""
    else if |args| == 1 then Quote(args[0])
    else Quote(args[0]) + ([' '] + QuoteAll(args[1..]))
  }

  function Clip(s: string, n: nat): (r: string)
    ensures |r| <= n && r <= s
  {
    if |s| > n then s[..n] else s
  }

  // ----- the shell: sections 2.2.1 to 2.2.3 and 2.3 of the POSIX.1-2017 Shell Command Language -----

  /** Between words, in one, inside single or double quotes, or behind a backslash. */
  datatype Mode = Between | Word(w: string) | Single(w: string) | Double(w: string) | Escaping(w: string) | DoubleEscaping(w: string)

  predicate Blank(c: char) {
    c == ' ' || c == '\t'
  }

  /** Characters that, unquoted, are operators or start an expansion, a pattern
      or a comment. */
  predicate Special(c: char) {
    c in "|&;<>()$`\n*?[#~=%"
  }

  function WordSoFar(m: Mode): string {
    if m.Between? then "" else m.w
  }

  /** One character. `None` is anything but plain words: an operator, an expansion. */
  function StepMode(m: Mode, done: seq<string>, c: char): Option<(Mode, seq<string>)> {
    match m
    case Single(w) => Some((if c == QUOTE then Word(w) else Single(w + [c]), done))
    case Double(w) =>
      if c == '"' then Some((Word(w), done))
      else if c == '\\' then Some((DoubleEscaping(w), done))
      else if c == '$' || c == '`' then None
      else Some((Double(w + [c]), done))
    case DoubleEscaping(w) =>
      if c == '\n' then Some((Double(w), done))
      else if c in "$`\"\\" then Some((Double(w + [c]), done))
      else Some((Double(w + ['\\', c]), done))
    case Escaping(w) => Some((if c == '\n' then Word(w) else Word(w + [c]), done))
    case _ =>
      var w := WordSoFar(m);
      if Blank(c) then Some((Between, if m.Word? then done + [w] else done))
      else if c == QUOTE then Some((Single(w), done))
      else if c == '"' then Some((Double(w), done))
      else if c == '\\' then Some((Escaping(w), done))
      else if Special(c) then None
      else Some((Word(w + [c]), done))
  }

  /** The words of the rest of a command line; an open quote or a last backslash is an error. */
  function Scan(s: string, m: Mode, done: seq<string>): Option<seq<string>>
    decreases |s|
  {
    if s == "" then
      match m
      case Between => Some(done)
      case Word(w) => Some(done + [w])
      case _ => None
    else
      match StepMode(m, done, s[0])
      case None => None
      case Some((m', done')) => Scan(s[1..], m', done')
  }

  function Words(s: string): Option<seq<string>> {
    Scan(s, Between, [])
  }

  // ----- word boundaries survive -----

  lemma ScanCons(c: char, rest: string, m: Mode, done: seq<string>)
    ensures Scan([c] + rest, m, done) ==
      match StepMode(m, done, c) case None => None case Some((m', done')) => Scan(rest, m', done')
  {
    assert ([c] + rest)[1..] == rest;
  }

  lemma ScanEscaped(rest: string, w: string, done: seq<string>)
    ensures Scan(ESCAPED + rest, Single(w), done) == Scan(rest, Single(w + [QUOTE]), done)
  {
    assert ESCAPED + rest == [QUOTE] + (['\\'] + ([QUOTE] + ([QUOTE] + rest)));
    ScanCons(QUOTE, ['\\'] + ([QUOTE] + ([QUOTE] + rest)), Single(w), done);
    ScanCons('\\', [QUOTE] + ([QUOTE] + rest), Word(w), done);
    ScanCons(QUOTE, [QUOTE] + rest, Escaping(w), done);
    ScanCons(QUOTE, rest, Word(w + [QUOTE]), done);
  }

  /** Inside single quotes, the escaped text of an argument reads as the argument. */
  lemma {:induction false} ScanEscape(arg: string, rest: string, w: string, done: seq<string>)
    ensures Scan(Escape(arg) + rest, Single(w), done) == Scan(rest, Single(w + arg), done)
    decreases |arg|
  {
    if arg == "" {
      assert Escape(arg) + rest == rest && w + arg == w;
    } else {
      var tail := Escape(arg[1..]) + rest;
      assert w + [arg[0]] + arg[1..] == w + arg;
      ScanEscape(arg[1..], rest, w + [arg[0]], done);
      if arg[0] == QUOTE {
        assert Escape(arg) + rest == ESCAPED + tail;
        ScanEscaped(tail, w, done);
      } else {
        assert Escape(arg) + rest == [arg[0]] + tail;
        ScanCons(arg[0], tail, Single(w), done);
      }
    }
  }

  /** A quoted argument reads as one word, which what follows may still extend. */
  lemma ScanQuote(arg: string, rest: string, done: seq<string>)
    ensures Scan(Quote(arg) + rest, Between, done) == Scan(rest, Word(arg), done)
  {
    var body := Escape(arg) + ([QUOTE] + rest);
    assert Quote(arg) + rest == [QUOTE] + body;
    ScanCons(QUOTE, body, Between, done);
    ScanEscape(arg, [QUOTE] + rest, "", done);
    assert "" + arg == arg;
    ScanCons(QUOTE, rest, Single(arg), done);
  }

  lemma {:induction false} ScanQuoteAll(args: seq<string>, done: seq<string>)
    ensures Scan(QuoteAll(args), Between, done) == Some(done + args)
    decreases |args|
  {
    if args == [] {
      assert done + args == done;
    } else if |args| == 1 {
      ScanQuote(args[0], "", done);
      assert Quote(args[0]) + "" == Quote(args[0]);
      assert done + [args[0]] == done + args;
    } else {
      var rest := QuoteAll(args[1..]);
      ScanQuote(args[0], [' '] + rest, done);
      ScanCons(' ', rest, Word(args[0]), done);
      ScanQuoteAll(args[1..], done + [args[0]]);
      assert done + [args[0]] + args[1..] == done + args;
    }
  }

  /** Every argument vector, whatever its characters, is read back word for word. */
  lemma QuotingPreservesWords(args: seq<string>)
    ensures Words(QuoteAll(args)) == Some(args)
  {
    ScanQuoteAll(args, []);
    assert [] + args == args;
  }

  // ----- when the buffer is too small -----

  /** The text was cut right behind the last character of an argument that ends in a quote. */
  predicate HarmlessCut(arg: string, len: nat, n: nat) {
    n + 2 == len && arg != "" && arg[|arg| - 1] == QUOTE
  }

  lemma {:induction false} EscapeLength(arg: string)
    ensures |Escape(arg)| >= |arg|
    ensures |Escape(arg)| == 0 <==> arg == ""
    decreases |arg|
  {
    if arg != "" {
      EscapeLength(arg[1..]);
    }
  }

  lemma CutInEscaped(arg: string, n: nat, w: string, done: seq<string>, s: string)
    requires 0 < n < 4 && arg != "" && arg[0] == QUOTE && s == Escape(arg) + [QUOTE]
    ensures var r := Scan(s[..n], Single(w), done);
      && (r.Some? ==> |r.value| == |done| + 1)
      && (r == Some(done + [w + arg]) <==> HarmlessCut(arg, |Escape(arg)| + 1, n))
  {
    assert s == ESCAPED + (Escape(arg[1..]) + [QUOTE]);
    EscapeLength(arg[1..]);
    if n == 1 {
      assert s[..n] == [QUOTE] + "";
      ScanCons(QUOTE, "", Single(w), done);
      assert (done + [w])[|done|] == w && (done + [w + arg])[|done|] == w + arg;
    } else if n == 2 {
      assert s[..n] == [QUOTE] + (['\\'] + "");
      ScanCons(QUOTE, ['\\'] + "", Single(w), done);
      ScanCons('\\', "", Word(w), done);
    } else {
      assert s[..n] == [QUOTE] + (['\\'] + ([QUOTE] + ""));
      ScanCons(QUOTE, ['\\'] + ([QUOTE] + ""), Single(w), done);
      ScanCons('\\', [QUOTE] + "", Word(w), done);
      ScanCons(QUOTE, "", Escaping(w), done);
      assert (done + [w + [QUOTE]])[|done|] == w + [QUOTE] && (done + [w + arg])[|done|] == w + arg;
      if |arg| == 1 {
        assert arg == [QUOTE];
      }
    }
  }

  /** Cut inside the escaped text: an error, or one word that is the whole
      argument only after a harmless cut. */
  lemma {:induction false} CutEscape(arg: string, n: nat, w: string, done: seq<string>)
    requires n <= |Escape(arg)|
    ensures var r := Scan((Escape(arg) + [QUOTE])[..n], Single(w), done);
      && (r.Some? ==> |r.value| == |done| + 1)
      && (r == Some(done + [w + arg]) <==> HarmlessCut(arg, |Escape(arg)| + 1, n))
    decreases |arg|
  {
    var s := Escape(arg) + [QUOTE];
    if n > 0 {
      var tail := Escape(arg[1..]) + [QUOTE];
      assert w + [arg[0]] + arg[1..] == w + arg;
      if arg[0] != QUOTE {
        assert s[..n] == [arg[0]] + tail[..n - 1];
        ScanCons(arg[0], tail[..n - 1], Single(w), done);
        CutEscape(arg[1..], n - 1, w + [arg[0]], done);
      } else if n >= 4 {
        assert s == ESCAPED + tail;
        assert s[..n] == ESCAPED + tail[..n - 4];
        ScanEscaped(tail[..n - 4], w, done);
        CutEscape(arg[1..], n - 4, w + [QUOTE], done);
      } else {
        assert s == ESCAPED + tail;
        CutInEscaped(arg, n, w, done, s);
      }
    }
  }

  /** Cut inside one quoted argument. */
  lemma CutQuote(arg: string, n: nat, done: seq<string>)
    requires n < |Quote(arg)|
    ensures var r := Scan(Quote(arg)[..n], Between, done);
      && (r.Some? ==> |r.value| <= |done| + 1)
      && (r == Some(done + [arg]) <==> HarmlessCut(arg, |Quote(arg)|, n))
  {
    EscapeLength(arg);
    if n == 0 {
      assert |done| != |done + [arg]|;
    } else {
      assert Quote(arg)[..n] == [QUOTE] + (Escape(arg) + [QUOTE])[..n - 1];
      ScanCons(QUOTE, (Escape(arg) + [QUOTE])[..n - 1], Between, done);
      CutEscape(arg, n - 1, "", done);
      assert "" + arg == arg;
    }
  }

  lemma QuoteAllLength(args: seq<string>)
    requires args != []
    ensures |QuoteAll(args)| >= 2
  {
  }

  lemma {:induction false} CutQuoteAll(args: seq<string>, n: nat, done: seq<string>)
    requires n < |QuoteAll(args)|
    ensures Scan(QuoteAll(args)[..n], Between, done) == Some(done + args) <==> HarmlessCut(args[|args| - 1], |QuoteAll(args)|, n)
    decreases |args|
  {
    var q := Quote(args[0]);
    if |args| == 1 {
      CutQuote(args[0], n, done);
      assert args == [args[0]];
    } else {
      var rest := QuoteAll(args[1..]);
      QuoteAllLength(args[1..]);
      if n < |q| {
        assert QuoteAll(args)[..n] == q[..n];
        CutQuote(args[0], n, done);
      } else if n == |q| {
        assert QuoteAll(args)[..n] == q + "";
        ScanQuote(args[0], "", done);
      } else {
        assert QuoteAll(args)[..n] == q + ([' '] + rest[..n - |q| - 1]);
        ScanQuote(args[0], [' '] + rest[..n - |q| - 1], done);
        ScanCons(' ', rest[..n - |q| - 1], Word(args[0]), done);
        CutQuoteAll(args[1..], n - |q| - 1, done + [args[0]]);
        assert done + [args[0]] + args[1..] == done + args;
      }
    }
  }

  /** Clipped to a buffer, the vector survives exactly when it fits, or when only
      the two last quotes of an argument ending in a quote are missing. */
  lemma ClippedWords(args: seq<string>, n: nat)
    ensures Words(Clip(QuoteAll(args), n)) == Some(args) <==>
      |QuoteAll(args)| <= n || HarmlessCut(args[|args| - 1], |QuoteAll(args)|, n)
  {
    QuotingPreservesWords(args);
    if |QuoteAll(args)| > n {
      CutQuoteAll(args, n, []);
      assert [] + args == args;
    }
  }

  lemma {:induction false} EscapePlain(arg: string)
    requires QUOTE !in arg
    ensures Escape(arg) == arg
    decreases |arg|
  {
    if arg != "" {
      EscapePlain(arg[1..]);
    }
  }

  /** In the 4096 bytes of the command buffer, `echo` with an argument of 4086
      letters survives, and with one letter more does not. */
  lemma LongestArgument(n: nat, arg: string)
    requires n == 4086 || n == 4087
    requires arg == seq(n, _ => 'x')
    ensures Words(Clip(QuoteAll(["echo", arg]), 4095)) == Some(["echo", arg]) <==> n == 4086
  {
    hide Words;
    EscapePlain("echo");
    EscapePlain(arg);
    var args := ["echo", arg];
    assert args[1..] == [arg];
    assert |QuoteAll(args)| == n + 9;
    ClippedWords(args, 4095);
  }

  // ----- the code -----

  lemma ClipAppend(a: string, b: string, n: nat)
    ensures Clip(Clip(a, n) + b, n) == Clip(a + b, n)
  {
  }

  /** Write one character if there is room before the terminator. */
  method PutChar(buf: array<char>, off: nat, c: char) returns (off': nat)
    requires off < buf.Length
    modifies buf
    ensures off' < buf.Length && buf[..off'] == Clip(old(buf[..off]) + [c], buf.Length - 1)
  {
    off' := off;
    if off < buf.Length - 1 {
      buf[off] := c;
      off' := off + 1;
    }
  }

  method PutString(buf: array<char>, off: nat, s: string) returns (off': nat)
    requires off < buf.Length
    modifies buf
    ensures off' < buf.Length && buf[..off'] == Clip(old(buf[..off]) + s, buf.Length - 1)
  {
    off' := off;
    var i := 0;
    assert buf[..off] + s[..0] == buf[..off];
    while i < |s|
      invariant i <= |s| && off' < buf.Length
      invariant buf[..off'] == Clip(old(buf[..off]) + s[..i], buf.Length - 1)
    {
      off' := PutChar(buf, off', s[i]);
      ClipAppend(old(buf[..off]) + s[..i], [s[i]], buf.Length - 1);
      assert old(buf[..off]) + s[..i] + [s[i]] == old(buf[..off]) + s[..i + 1];
      i := i + 1;
    }
    assert s[..i] == s;
  }

  lemma EscapeSnoc(arg: string, i: nat)
    requires i < |arg|
    ensures Escape(arg[..i + 1]) == Escape(arg[..i]) + if arg[i] == QUOTE then ESCAPED else [arg[i]]
    decreases i
  {
    if i == 0 {
      assert arg[..1][1..] == "" && arg[..0] == "";
    } else {
      EscapeSnoc(arg[1..], i - 1);
      assert arg[..i + 1][1..] == arg[1..][..i] && arg[..i][1..] == arg[1..][..i - 1];
    }
  }

  lemma EscapeNothing(start: string, arg: string)
    ensures start + Escape(arg[..0]) == start
  {
  }

  method PutEscaped(buf: array<char>, off: nat, arg: string) returns (off': nat)
    requires off < buf.Length
    modifies buf
    ensures off' < buf.Length && buf[..off'] == Clip(old(buf[..off]) + Escape(arg), buf.Length - 1)
  {
    hide Escape;
    ghost var start, n := buf[..off], buf.Length - 1;
    off' := off;
    var i := 0;
    EscapeNothing(start, arg);
    while i < |arg|
      invariant i <= |arg| && off' < buf.Length
      invariant buf[..off'] == Clip(start + Escape(arg[..i]), n)
    {
      ghost var next := if arg[i] == QUOTE then ESCAPED else [arg[i]];
      if arg[i] == QUOTE {
        off' := PutString(buf, off', ESCAPED);
      } else {
        off' := PutChar(buf, off', arg[i]);
      }
      ClipAppend(start + Escape(arg[..i]), next, n);
      EscapeSnoc(arg, i);
      Assoc(start, Escape(arg[..i]), next);
      i := i + 1;
    }
    assert arg[..i] == arg;
  }

  /** Appends one quoted argument, clipped to the buffer, and terminates it. */
  method ShellQuoteAppend(buf: array<char>, off: nat, arg: string, first: bool) returns (off': nat)
    requires off < buf.Length
    modifies buf
    ensures off' < buf.Length && buf[off'] == '\0'
    ensures buf[..off'] == Clip(old(buf[..off]) + ((if first then "" else " ") + Quote(arg)), buf.Length - 1)
  {
    ghost var start, n := buf[..off], buf.Length - 1;
    ghost var sep := if first then "" else " ";
    off' := off;
    if !first {
      off' := PutChar(buf, off', ' ');
    }
    assert start + "" == start;
    off' := PutChar(buf, off', QUOTE);
    ClipAppend(start + sep, [QUOTE], n);
    off' := PutEscaped(buf, off', arg);
    ClipAppend(start + sep + [QUOTE], Escape(arg), n);
    off' := PutChar(buf, off', QUOTE);
    ClipAppend(start + sep + [QUOTE] + Escape(arg), [QUOTE], n);
    Assoc(start + sep + [QUOTE], Escape(arg), [QUOTE]);
    Assoc(start + sep, [QUOTE], Escape(arg) + [QUOTE]);
    Assoc(start, sep, Quote(arg));
    buf[off'] := '\0';
  }

  lemma {:induction false} QuoteAllSnoc(args: seq<string>, arg: string)
    ensures QuoteAll(args + [arg]) == QuoteAll(args) + ((if args == [] then "" else " ") + Quote(arg))
    decreases |args|
  {
    if args == [] {
      assert args + [arg] == [arg];
    } else {
      QuoteAllSnoc(args[1..], arg);
      assert (args + [arg])[1..] == args[1..] + [arg] && (args + [arg])[0] == args[0];
      var last := " " + Quote(arg);
      if |args| == 1 {
        assert args[1..] == [] && QuoteAll([arg]) == Quote(arg);
      } else {
        Assoc(Quote(args[0]), [' '] + QuoteAll(args[1..]), last);
        Assoc([' '], QuoteAll(args[1..]), last);
      }
    }
  }

  lemma QuoteNothing()
    ensures QuoteAll([]) == ""
  {
  }

  /** The command string for su -c: what the shell reads from it is the vector,
      unless the buffer was too small to hold it. */
  method JoinArguments(args: seq<string>, size: nat) returns (cmd: string)
    requires size > 0
    ensures cmd == Clip(QuoteAll(args), size - 1)
    ensures Words(cmd) == Some(args) <==>
      |QuoteAll(args)| < size || HarmlessCut(args[|args| - 1], |QuoteAll(args)|, size - 1)
  {
    hide QuoteAll, Quote, Words, HarmlessCut;
    var buf := new char[size](_ => '\0');
    var off: nat, k: nat := 0, 0;
    assert args[..0] == [];
    QuoteNothing();
    while k < |args|
      invariant k <= |args| && off < buf.Length
      invariant buf[..off] == Clip(QuoteAll(args[..k]), size - 1)
    {
      off := ShellQuoteAppend(buf, off, args[k], k == 0);
      ClipAppend(QuoteAll(args[..k]), (if k == 0 then "" else " ") + Quote(args[k]), size - 1);
      QuoteAllSnoc(args[..k], args[k]);
      assert args[..k] + [args[k]] == args[..k + 1];
      k := k + 1;
    }
    assert args[..k] == args;
    cmd := buf[..off];
    ClippedWords(args, size - 1);
  }
}
