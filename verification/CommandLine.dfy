/** Quoting an argument list into one Windows command line (`make_command_line` of
    tools/win32/process.c), and the parser it is meant to be the inverse of. */
module CommandLine {
  import opened Bytes

  type CString = s: string | '\0' !in s

  const QUOTE: char := '\"'
  const SLASH: char := '\\'

  function Slashes(n: nat): (s: string)
    ensures |s| == n
    ensures forall i :: 0 <= i < n ==> s[i] == SLASH
  {
    if n == 0 then "" else [SLASH] + Slashes(n - 1)
  }

  // ---------------------------------------------------------------- quoting

  /** What follows in the output for the rest of an argument, after `pending` backslashes. */
  function QuoteFrom(src: string, pending: nat): string {
    if src == "" then Slashes(pending)
    else if src[0] == QUOTE then Slashes(pending) + [SLASH, QUOTE] + QuoteFrom(src[1..], 0)
    else if src[0] == SLASH then [SLASH] + QuoteFrom(src[1..], pending + 1)
    else [src[0]] + QuoteFrom(src[1..], 0)
  }

  function Quoted(arg: string): string {
    [QUOTE] + QuoteFrom(arg, 0) + [QUOTE]
  }

  function Line(argv: seq<CString>): string {
    if argv == [] then "" else if |argv| == 1 then Quoted(argv[0]) else Quoted(argv[0]) + " " + Line(argv[1..])
  }

  /** The length computed beforehand: each character could need escaping. */
  function WorstCase(argv: seq<CString>): nat {
    if argv == [] then 0 else 2 * |argv[0]| + 3 + WorstCase(argv[1..])
  }

  method WriteSlashes(buf: array<char>, at: nat, n: nat) returns (dest: nat)
    requires at + n <= buf.Length
    modifies buf
    ensures dest == at + n && buf[..dest] == old(buf[..at]) + Slashes(n)
  {
    dest := at;
    ghost var before := buf[..at];
    while dest < at + n
      invariant at <= dest <= at + n && buf[..at] == before
      invariant forall i :: at <= i < dest ==> buf[i] == SLASH
    {
      buf[dest] := SLASH;
      dest := dest + 1;
    }
    assert buf[at..dest] == Slashes(n);
  }

  method WriteEscapedQuote(buf: array<char>, at: nat, n: nat) returns (dest: nat)
    requires at + n + 2 <= buf.Length
    modifies buf
    ensures dest == at + n + 2 && buf[..dest] == old(buf[..at]) + (Slashes(n) + [SLASH, QUOTE])
  {
    hide Slashes;
    dest := WriteSlashes(buf, at, n);
    buf[dest], buf[dest + 1] := SLASH, QUOTE;
    dest := dest + 2;
  }

  /** One character further along an argument. */
  lemma QuoteStep(src: string, i: nat, pending: nat)
    requires i < |src|
    ensures var c, s := src[i], QuoteFrom(src[i..], pending);
      if c == QUOTE then s == Slashes(pending) + [SLASH, QUOTE] + QuoteFrom(src[i + 1..], 0)
      else s == [c] + QuoteFrom(src[i + 1..], if c == SLASH then pending + 1 else 0)
  {
    assert src[i..][0] == src[i] && src[i..][1..] == src[i + 1..];
  }

  /** One argument, between quotes. */
  method WriteArgument(buf: array<char>, at: nat, src: string) returns (dest: nat)
    requires at + |Quoted(src)| <= buf.Length
    modifies buf
    ensures dest == at + |Quoted(src)| && buf[..dest] == old(buf[..at]) + Quoted(src)
  {
    hide Slashes, QuoteFrom;
    ghost var all := buf[..at] + Quoted(src);
    buf[at] := QUOTE;
    dest := at + 1;
    var backslashes, i := 0, 0;
    assert src[0..] == src;
    while i < |src|
      invariant 0 <= i <= |src| && at < dest <= buf.Length
      invariant buf[..dest] + QuoteFrom(src[i..], backslashes) + [QUOTE] == all
    {
      QuoteStep(src, i, backslashes);
      ghost var sofar := buf[..dest];
      assert |sofar + QuoteFrom(src[i..], backslashes) + [QUOTE]| == |all|;
      if src[i] == QUOTE {
        ghost var rest := QuoteFrom(src[i + 1..], 0);
        dest := WriteEscapedQuote(buf, dest, backslashes);
        assert buf[..dest] + rest == sofar + (Slashes(backslashes) + [SLASH, QUOTE] + rest);
        backslashes := 0;
      } else {
        buf[dest] := src[i];
        dest := dest + 1;
        backslashes := if src[i] == SLASH then backslashes + 1 else 0;
        ghost var rest := QuoteFrom(src[i + 1..], backslashes);
        assert buf[..dest] + rest == sofar + ([src[i]] + rest);
      }
      i := i + 1;
    }
    QuoteEnd(src, backslashes);
    assert |buf[..dest] + Slashes(backslashes) + [QUOTE]| == |all|;
    dest := WriteSlashes(buf, dest, backslashes);
    buf[dest] := QUOTE;
    dest := dest + 1;
  }

  lemma QuoteEnd(src: string, pending: nat)
    ensures QuoteFrom(src[|src|..], pending) == Slashes(pending)
  {
  }

  /** `make_command_line`: the buffer holds the whole line and its terminator. */
  method MakeCommandLine(argv: seq<CString>) returns (buf: array<char>)
    requires argv != []
    ensures fresh(buf) && buf.Length == WorstCase(argv) > |Line(argv)|
    ensures buf[..|Line(argv)|] == Line(argv) && buf[|Line(argv)|] == '\0'
  {
    hide Quoted, Slashes;
    var len := BufferLength(argv);
    LengthBound(argv);
    buf := new char[len];
    var dest := WriteLine(buf, argv);
    buf[dest] := '\0';
  }

  method BufferLength(argv: seq<CString>) returns (len: nat)
    requires argv != []
    ensures len == WorstCase(argv)
  {
    len := 1;
    var i := 0;
    while true
      invariant 0 <= i < |argv|
      invariant len + WorstCase(argv[i..]) == WorstCase(argv) + 1
      decreases |argv| - i
    {
      len := len + |argv[i]| * 2;
      i := i + 1;
      if i == |argv| {
        break;
      }
      len := len + 3;
    }
    len := len + 2;
  }

  method WriteLine(buf: array<char>, argv: seq<CString>) returns (dest: nat)
    requires argv != [] && |Line(argv)| < buf.Length
    modifies buf
    ensures dest == |Line(argv)| && buf[..dest] == Line(argv)
  {
    hide Quoted, Line;
    dest := 0;
    var i := 0;
    assert argv[0..] == argv;
    while true
      invariant 0 <= i < |argv| && dest <= buf.Length
      invariant buf[..dest] + Line(argv[i..]) == Line(argv)
      decreases |argv| - i
    {
      ghost var sofar := buf[..dest];
      LineFrom(argv, i);
      assert |sofar + Line(argv[i..])| == |Line(argv)|;
      dest := WriteArgument(buf, dest, argv[i]);
      i := i + 1;
      if i == |argv| {
        assert sofar + (Quoted(argv[i - 1]) + "") == buf[..dest];
        break;
      }
      ghost var next := Line(argv[i..]);
      assert sofar + (Quoted(argv[i - 1]) + (" " + next)) == buf[..dest] + [' '] + next;
      buf[dest] := ' ';
      dest := dest + 1;
    }
  }

  lemma LineFrom(argv: seq<CString>, i: nat)
    requires i < |argv|
    ensures Line(argv[i..]) == Quoted(argv[i]) + if i + 1 == |argv| then "" else " " + Line(argv[i + 1..])
  {
    hide Quoted;
    assert argv[i..][1..] == argv[i + 1..];
    var q, next := Quoted(argv[i]), Line(argv[i + 1..]);
    assert q + " " + next == q + (" " + next);
    assert q + "" == q;
  }

  // ---------------------------------------------------------------- the bound

  /** The characters that are written twice. */
  predicate AllEscaped(arg: string) {
    forall c :: c in arg ==> c == QUOTE || c == SLASH
  }

  lemma EscapedCons(src: string)
    requires src != ""
    ensures AllEscaped(src) <==> (src[0] == QUOTE || src[0] == SLASH) && AllEscaped(src[1..])
  {
    assert src[0] in src;
    assert forall c :: c in src[1..] ==> c in src;
    assert forall c :: c in src ==> c == src[0] || c in src[1..];
  }

  /** A backslash still pending is written at most once more. */
  lemma {:induction false} QuoteLength(src: string, pending: nat)
    ensures |QuoteFrom(src, pending)| <= 2 * |src| + pending
    ensures |QuoteFrom(src, pending)| == 2 * |src| + pending <==> AllEscaped(src)
  {
    if src != "" {
      QuoteLength(src[1..], if src[0] == SLASH then pending + 1 else 0);
      EscapedCons(src);
      QuoteStep(src, 0, pending);
      assert src[0..] == src;
    }
  }

  /** The line and its terminator never need more than the buffer, and need all of it exactly
      when every character of every argument is escaped. */
  lemma {:induction false} LengthBound(argv: seq<CString>)
    requires argv != []
    ensures |Line(argv)| + 1 <= WorstCase(argv)
    ensures |Line(argv)| + 1 == WorstCase(argv) <==> forall a :: a in argv ==> AllEscaped(a)
  {
    hide QuoteFrom, AllEscaped;
    QuoteLength(argv[0], 0);
    assert argv == [argv[0]] + argv[1..];
    if |argv| == 1 {
      assert argv[1..] == [];
    } else {
      LengthBound(argv[1..]);
    }
  }

  // ---------------------------------------------------------------- the parser

  predicate Blank(c: char) {
    c == ' ' || c == '\t'
  }

  /** Splitting a command line: after `slashes` backslashes, inside quotes or not, with `word` read
      so far. Backslashes escape only when a quote follows; then half of them stay, and an odd one
      makes the quote literal. With `doubling`, a second quote inside quotes is literal too. */
  function Split(doubling: bool, s: string, quoted: bool, slashes: nat, word: Option<string>): seq<string>
    decreases |s|
  {
    var sofar := if word.Some? then word.value else "";
    if s == "" then
      if word.Some? || slashes > 0 then [sofar + Slashes(slashes)] else []
    else if s[0] == SLASH then Split(doubling, s[1..], quoted, slashes + 1, word)
    else if s[0] == QUOTE then
      if slashes % 2 == 1 then
        Split(doubling, s[1..], quoted, 0, Some(sofar + Slashes(slashes / 2) + [QUOTE]))
      else if doubling && quoted && |s| > 1 && s[1] == QUOTE then
        Split(doubling, s[2..], quoted, 0, Some(sofar + Slashes(slashes / 2) + [QUOTE]))
      else Split(doubling, s[1..], !quoted, 0, Some(sofar + Slashes(slashes / 2)))
    else if Blank(s[0]) && !quoted then
      (if word.Some? || slashes > 0 then [sofar + Slashes(slashes)] else []) + Split(doubling, s[1..], false, 0, None)
    else Split(doubling, s[1..], quoted, 0, Some(sofar + Slashes(slashes) + [s[0]]))
  }

  function Parse(doubling: bool, line: string): seq<string> {
    Split(doubling, line, false, 0, None)
  }

  // ---------------------------------------------------------------- the inverse

  lemma {:induction false} MoreSlashes(m: nat, n: nat)
    ensures Slashes(m) + Slashes(n) == Slashes(m + n)
  {
  }

  lemma {:induction false} SplitSlashes(d: bool, n: nat, s: string, quoted: bool, slashes: nat, word: Option<string>)
    ensures Split(d, Slashes(n) + s, quoted, slashes, word) == Split(d, s, quoted, slashes + n, word)
  {
    if n == 0 {
      assert Slashes(0) + s == s;
    } else {
      assert (Slashes(n) + s)[1..] == Slashes(n - 1) + s;
      SplitSlashes(d, n - 1, s, quoted, slashes + 1, word);
    }
  }

  /** Inside quotes, the rest of a quoted argument reads back as itself. */
  lemma {:induction false} ArgumentReadsBack(d: bool, src: string, pending: nat, tail: string, word: string)
    requires tail == "" || tail[0] == ' '
    ensures Split(d, QuoteFrom(src, pending) + [QUOTE] + tail, true, pending, Some(word))
         == Split(d, tail, false, 0, Some(word + Slashes(pending) + src))
    decreases |src|
  {
    hide Split, Slashes;
    var s := QuoteFrom(src, pending) + [QUOTE] + tail;
    if src == "" {
      assert s == Slashes(pending) + ([QUOTE] + tail);
      SplitSlashes(d, pending, [QUOTE] + tail, true, pending, Some(word));
      EndQuote(d, tail, pending, word);
      assert word + Slashes(pending) + src == word + Slashes(pending);
    } else if src[0] == QUOTE {
      var rest := QuoteFrom(src[1..], 0) + [QUOTE] + tail;
      assert s == Slashes(pending) + ([SLASH, QUOTE] + rest);
      SplitSlashes(d, pending, [SLASH, QUOTE] + rest, true, pending, Some(word));
      EscapedQuote(d, rest, pending, word);
      ArgumentReadsBack(d, src[1..], 0, tail, word + Slashes(pending) + [QUOTE]);
      NoSlashes();
      assert word + Slashes(pending) + [QUOTE] + "" + src[1..] == word + Slashes(pending) + src;
    } else if src[0] == SLASH {
      var rest := QuoteFrom(src[1..], pending + 1) + [QUOTE] + tail;
      assert s == [SLASH] + rest;
      OneSlash(d, rest, pending, word);
      ArgumentReadsBack(d, src[1..], pending + 1, tail, word);
      MoreSlashes(pending, 1);
      NoSlashes();
      assert word + Slashes(pending + 1) + src[1..] == word + Slashes(pending) + src;
    } else {
      var rest := QuoteFrom(src[1..], 0) + [QUOTE] + tail;
      assert s == [src[0]] + rest;
      OtherChar(d, src[0], rest, pending, word);
      ArgumentReadsBack(d, src[1..], 0, tail, word + Slashes(pending) + [src[0]]);
      NoSlashes();
      assert word + Slashes(pending) + [src[0]] + "" + src[1..] == word + Slashes(pending) + src;
    }
  }

  lemma NoSlashes()
    ensures Slashes(0) == "" && Slashes(1) == [SLASH]
  {
  }

  lemma EndQuote(d: bool, tail: string, n: nat, word: string)
    requires tail == "" || tail[0] == ' '
    ensures Split(d, [QUOTE] + tail, true, n + n, Some(word)) == Split(d, tail, false, 0, Some(word + Slashes(n)))
  {
    assert ([QUOTE] + tail)[1..] == tail && (n + n) / 2 == n;
  }

  lemma EscapedQuote(d: bool, rest: string, n: nat, word: string)
    ensures Split(d, [SLASH, QUOTE] + rest, true, n + n, Some(word))
         == Split(d, rest, true, 0, Some(word + Slashes(n) + [QUOTE]))
  {
    var s := [SLASH, QUOTE] + rest;
    assert s[1..] == [QUOTE] + rest && s[1..][1..] == rest;
    assert (n + n + 1) / 2 == n && (n + n + 1) % 2 == 1;
    assert Split(d, s, true, n + n, Some(word)) == Split(d, s[1..], true, n + n + 1, Some(word));
  }

  lemma OneSlash(d: bool, rest: string, n: nat, word: string)
    ensures Split(d, [SLASH] + rest, true, n, Some(word)) == Split(d, rest, true, n + 1, Some(word))
  {
    assert ([SLASH] + rest)[1..] == rest;
  }

  lemma OtherChar(d: bool, c: char, rest: string, n: nat, word: string)
    requires c != SLASH && c != QUOTE
    ensures Split(d, [c] + rest, true, n, Some(word)) == Split(d, rest, true, 0, Some(word + Slashes(n) + [c]))
  {
    assert ([c] + rest)[1..] == rest;
  }

  /** The parser gets back exactly the arguments, whatever they contain, and whether or not it
      knows doubled quotes. */
  lemma {:induction false} ParseInvertsLine(doubling: bool, argv: seq<CString>)
    requires argv != []
    ensures Parse(doubling, Line(argv)) == argv
    decreases |argv|
  {
    hide Split, QuoteFrom;
    var arg := argv[0];
    var tail := if |argv| == 1 then "" else " " + Line(argv[1..]);
    assert Line(argv) == [QUOTE] + (QuoteFrom(arg, 0) + [QUOTE] + tail);
    StartQuote(doubling, QuoteFrom(arg, 0) + [QUOTE] + tail);
    ArgumentReadsBack(doubling, arg, 0, tail, "");
    NoSlashes();
    assert "" + Slashes(0) + arg == arg;
    WordEnds(doubling, if |argv| == 1 then "" else Line(argv[1..]), arg, |argv| > 1);
    if |argv| > 1 {
      ParseInvertsLine(doubling, argv[1..]);
      assert argv == [arg] + argv[1..];
    }
  }

  lemma StartQuote(d: bool, rest: string)
    ensures Split(d, [QUOTE] + rest, false, 0, None) == Split(d, rest, true, 0, Some(""))
  {
    assert ([QUOTE] + rest)[1..] == rest;
    assert "" + Slashes(0 / 2) == "";
  }

  lemma WordEnds(d: bool, rest: string, word: string, more: bool)
    requires !more ==> rest == ""
    ensures Split(d, if more then " " + rest else "", false, 0, Some(word))
         == [word] + if more then Parse(d, rest) else []
  {
    NoSlashes();
    assert word + Slashes(0) == word;
    if more {
      var s := " " + rest;
      assert s[0] == ' ' && s[1..] == rest;
      assert Split(d, s, false, 0, Some(word)) == [word] + Split(d, s[1..], false, 0, None);
    }
  }
}
