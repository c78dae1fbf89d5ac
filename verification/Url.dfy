/** The URL parser that decodes a URL inside its own buffer (`amqp_url.c`). */
module Url {
  import opened Bytes
  import opened Statuses

  // ---------------------------------------------------------------- characters

  const COLON: byte := 58
  const AT_SIGN: byte := 64
  const SLASH: byte := 47
  const PERCENT: byte := 37
  const OPENING: byte := 91
  const CLOSING: byte := 93

  /** `:` `@` when asked for, and always NUL `/` `?` `#` `[` `]`. */
  predicate IsDelim(c: byte, colonAndAt: bool) {
    (colonAndAt && (c == COLON || c == AT_SIGN)) || c in {0, SLASH, 63, 35, OPENING, CLOSING}
  }

  function HexDigit(c: byte): Option<byte> {
    if 48 <= c <= 57 then Some(c - 48)
    else if 65 <= c <= 70 then Some(c - 55)
    else if 97 <= c <= 102 then Some(c - 87)
    else None
  }

  const PLUS: byte := 43
  const MINUS: byte := 45

  /** `isspace` */
  predicate IsSpace(c: byte) {
    c == 32 || 9 <= c <= 13
  }

  /** A hexadecimal number that began with the digit `d` takes in the character `c` too. */
  predicate GoesOn(d: byte, c: byte) {
    HexDigit(c).Some? || (d == 48 && (c == 88 || c == 120))
  }

  /** The character that `sscanf` with `%2x%n` finds in front of `s`, when it takes exactly two
      characters for it and it fits a signed `char`: two hexadecimal digits, a sign and a digit, or
      white space and a digit, if the number ends there. */
  function Escape(s: bytes): (r: Option<byte>)
    ensures r.Some? ==> |s| >= 2 && r.value <= 127
  {
    if |s| < 2 || HexDigit(s[1]).None? then None
    else
      var low := HexDigit(s[1]).value;
      if HexDigit(s[0]).Some? then
        var v: nat := HexDigit(s[0]).value * 16 + low;
        if v <= 127 then Some(v) else None
      else if s[0] == PLUS || (s[0] == MINUS && low == 0) then Some(low)
      else if IsSpace(s[0]) && (|s| == 2 || !GoesOn(s[1], s[2])) then Some(low)
      else None
  }

  // ---------------------------------------------------------------- scanning one component

  /** The decoded text up to a delimiter, the delimiter (NUL at the end), and what follows it. */
  datatype Scanned = Found(text: bytes, delim: byte, rest: bytes) | Malformed

  function Before(c: byte, s: Scanned): Scanned {
    if s.Found? then Found([c] + s.text, s.delim, s.rest) else s
  }

  function Scan(s: bytes, colonAndAt: bool): Scanned {
    if s == [] then Found([], 0, [])
    else if IsDelim(s[0], colonAndAt) then Found([], s[0], s[1..])
    else if s[0] == PERCENT then
      if Escape(s[1..]).Some? then Before(Escape(s[1..]).value, Scan(s[3..], colonAndAt)) else Malformed
    else Before(s[0], Scan(s[1..], colonAndAt))
  }

  function After(text: bytes, s: Scanned): Scanned {
    if s.Found? then Found(text + s.text, s.delim, s.rest) else s
  }

  /** A NUL-terminated string of the URL buffer, read at `p` and still to be scanned. */
  predicate Terminated(url: array<byte>, p: nat, end: nat)
    reads url
  {
    p <= end < url.Length && url[end] == 0 && 0 !in url[p..end]
  }

  /** One character further along, with `text` decoded so far. */
  lemma ScanStep(s: bytes, colonAndAt: bool, text: bytes)
    ensures var r := After(text, Scan(s, colonAndAt));
      if s == [] then r == Found(text, 0, [])
      else if IsDelim(s[0], colonAndAt) then r == Found(text, s[0], s[1..])
      else if s[0] != PERCENT then r == After(text + [s[0]], Scan(s[1..], colonAndAt))
      else if Escape(s[1..]).Some? then r == After(text + [Escape(s[1..]).value], Scan(s[3..], colonAndAt))
      else r == Malformed
  {
    hide Escape, IsDelim;
    assert text + [] == text;
    if s != [] && !IsDelim(s[0], colonAndAt) {
      if s[0] != PERCENT {
        Regroup(text, s[0], Scan(s[1..], colonAndAt));
      } else if Escape(s[1..]).Some? {
        Regroup(text, Escape(s[1..]).value, Scan(s[3..], colonAndAt));
      }
    }
  }

  lemma Regroup(text: bytes, c: byte, s: Scanned)
    ensures After(text, Before(c, s)) == After(text + [c], s)
  {
    if s.Found? {
      assert text + ([c] + s.text) == text + [c] + s.text;
    }
  }

  /** The two characters are found before the terminator or not at all. */
  lemma HexBeforeEnd(s: bytes, from: nat, end: nat)
    requires from <= end < |s| && s[end] == 0
    ensures Escape(s[from..]) == Escape(s[from..end])
    ensures Escape(s[from..]).Some? ==> from + 2 <= end
  {
  }

  /** The character that stands at `from`, percent-encoded or plain, and where the next one is. */
  method Decode(url: array<byte>, from: nat, ghost end: nat) returns (val: Option<byte>, next: nat)
    requires from < end < url.Length && url[end] == 0
    ensures from < next && (val.Some? ==> next <= end)
    ensures var s := url[from..end];
      if s[0] != PERCENT then val == Some(s[0]) && next == from + 1
      else val == Escape(s[1..]) && next == from + 3
  {
    hide Escape;
    next := from + 1;
    val := Some(url[from]);
    if url[from] == PERCENT {
      HexBeforeEnd(url[..], next, end);
      assert url[next..end] == url[from..end][1..];
      val := Escape(url[next..]);
      next := next + 2;
    }
  }

  /** What a scan from `p` up to a delimiter leaves: the text where it stood, terminated, and nothing
      changed before `p` or from the position behind the delimiter on. */
  predicate DelimFound(before: bytes, now: bytes, p: nat, end: nat, scanned: Scanned, delim: byte, p': nat) {
    && scanned.Found? && |now| == |before| && p + |scanned.text| < p' <= end + 1 <= |now| && delim == scanned.delim
    && At(now, p, scanned.text + [0]) && now[..p] == before[..p] && now[p'..] == before[p'..]
    && (p' <= end ==> scanned.rest == now[p'..end]) && (p' == end + 1 ==> delim == 0)
  }

  lemma DelimReached(before: bytes, now: bytes, p: nat, from: nat, end: nat, text: bytes)
    requires p + |text| <= from <= end < |before| == |now| && before[end] == 0 && 0 !in before[p..end]
    requires now[..p] == before[..p] && now[p..p + |text|] == text && now[p + |text|] == 0
    requires forall i :: from < i < |now| ==> now[i] == before[i]
    ensures var s := before[from..end];
      var scanned := if s == [] then Found(text, 0, []) else Found(text, s[0], s[1..]);
      DelimFound(before, now, p, end, scanned, before[from], from + 1)
  {
    assert now[p..p + |text| + 1] == text + [0];
    assert now[from + 1..] == before[from + 1..];
    if from < end {
      assert before[from..end][1..] == now[from + 1..end];
    }
  }

  /** `find_delim`: the text is decoded in place, behind the reading position. */
  method FindDelim(url: array<byte>, p: nat, ghost end: nat, colonAndAt: bool) returns (delim: byte, p': nat)
    requires Terminated(url, p, end)
    modifies url
    ensures url[end] == 0 && url[..p] == old(url[..p])
    ensures var scanned := Scan(old(url[p..end]), colonAndAt);
      if scanned.Malformed? then delim == PERCENT
      else delim != PERCENT && DelimFound(old(url[..]), url[..], p, end, scanned, delim, p')
  {
    hide Scan, Escape, IsDelim, Before, After, DelimFound;
    ghost var before := url[..];
    ghost var text := [];
    var from, to := p, p;
    NothingYet(Scan(before[p..end], colonAndAt));
    assert before[p..end] == url[p..end];
    while true
      invariant p <= to <= from <= end && to == p + |text|
      invariant url[..p] == before[..p] && url[p..to] == text
      invariant forall i :: from <= i < url.Length ==> url[i] == before[i]
      invariant Scan(before[p..end], colonAndAt) == After(text, Scan(before[from..end], colonAndAt))
      decreases end - from
    {
      ghost var s := before[from..end];
      var ch := url[from];
      ScanStep(s, colonAndAt, text);
      DelimValues(ch, colonAndAt);
      if IsDelim(ch, colonAndAt) {
        url[to] := 0;
        DelimReached(before, url[..], p, from, end, text);
        return ch, from + 1;
      }
      assert url[from..end] == s;
      var val, next := Decode(url, from, end);
      if val.None? {
        return PERCENT, p;
      }
      assert before[next..end] == s[next - from..];
      from := next;
      url[to] := val.value;
      to := to + 1;
      text := text + [val.value];
    }
  }

  lemma NothingYet(s: Scanned)
    ensures After([], s) == s
  {
    if s.Found? {
      assert [] + s.text == s.text;
    }
  }

  lemma DelimValues(c: byte, colonAndAt: bool)
    ensures IsDelim(0, colonAndAt) && !IsDelim(PERCENT, colonAndAt)
  {
  }

  // ---------------------------------------------------------------- what a URL means

  /** `struct amqp_connection_info` */
  datatype Info = Info(user: bytes, password: bytes, host: bytes, port: nat, vhost: bytes, ssl: bool)

  const GUEST: bytes := [103, 117, 101, 115, 116]
  const LOCALHOST: bytes := [108, 111, 99, 97, 108, 104, 111, 115, 116]
  const AMQP_PREFIX: bytes := [97, 109, 113, 112, 58, 47, 47]
  const AMQPS_PREFIX: bytes := [97, 109, 113, 112, 115, 58, 47, 47]

  /** A C string ends at its first NUL. */
  function Cut(s: bytes): bytes {
    if s == [] || s[0] == 0 then [] else [s[0]] + Cut(s[1..])
  }

  lemma {:induction false} CutMeans(s: bytes)
    ensures var r := Cut(s); |r| <= |s| && r == s[..|r|] && 0 !in r && (|r| < |s| ==> s[|r|] == 0)
  {
    if s != [] && s[0] != 0 {
      CutMeans(s[1..]);
    }
  }

  function Text(t: Option<bytes>, default: bytes): bytes {
    if t.Some? then Cut(t.value) else default
  }

  function SkipSpaces(s: bytes): bytes {
    if s == [] || !IsSpace(s[0]) then s else SkipSpaces(s[1..])
  }

  function Unsigned(s: bytes): Option<nat> {
    if s == [] then None else Digits(0, s)
  }

  function Negated(n: Option<nat>): Option<int> {
    if n.None? then None
    else
      var m: int := n.value;
      Some(-m)
  }

  /** The number that `strtol` reads, if it reads up to the end of the string: white space, a sign, and
      decimal digits, of which only the digits must be there. */
  function Decimal(s: bytes): Option<int> {
    var t := SkipSpaces(s);
    if t != [] && t[0] == PLUS then Unsigned(t[1..])
    else if t != [] && t[0] == MINUS then Negated(Unsigned(t[1..]))
    else Unsigned(t)
  }

  function Digits(sofar: nat, s: bytes): Option<nat>
    decreases |s|
  {
    if s == [] then Some(sofar)
    else if 48 <= s[0] <= 57 then Digits(sofar * 10 + s[0] - 48, s[1..])
    else None
  }

  /** The part up to the delimiter that ends the host, or opens an IPv6 address: what may have been
      host and port turns out to be user and password when `@` follows. */
  datatype Front = Front(user: Option<bytes>, password: Option<bytes>, host: bytes, hostIsStart: bool,
                         port: Option<bytes>, delim: byte, rest: bytes)

  function ReadFront(s: bytes): Option<Front> {
    match Scan(s, true)
    case Malformed => None
    case Found(a, d, r) =>
      if d == COLON then
        match Scan(r, true)
        case Malformed => None
        case Found(b, d', r') =>
          if d' == AT_SIGN then HostFront(Some(a), Some(b), r')
          else Some(Front(None, None, a, false, Some(b), d', r'))
      else if d == AT_SIGN then HostFront(Some(a), None, r)
      else Some(Front(None, None, a, true, None, d, r))
  }

  function HostFront(user: Option<bytes>, password: Option<bytes>, s: bytes): Option<Front> {
    match Scan(s, true)
    case Malformed => None
    case Found(h, d, r) => Some(Front(user, password, h, true, None, d, r))
  }

  datatype Middle = Middle(host: Option<bytes>, port: Option<bytes>, delim: byte, rest: bytes)

  function ReadHost(f: Front): Option<Middle> {
    if f.delim != OPENING then
      Some(Middle(if Cut(f.host) != [] then Some(f.host) else None, f.port, f.delim, f.rest))
    else if !f.hostIsStart || Cut(f.host) != [] then None
    else
      match Scan(f.rest, false)
      case Malformed => None
      case Found(h, d, r) =>
        if d != CLOSING then None
        else
          match Scan(r, true)
          case Malformed => None
          case Found(x, d', r') => if Cut(x) != [] then None else Some(Middle(Some(h), None, d', r'))
  }

  /** A port after the host replaces one found before. */
  function ReadPort(m: Middle): Option<Middle> {
    if m.delim != COLON then Some(m)
    else
      match Scan(m.rest, true)
      case Malformed => None
      case Found(t, d, r) => Some(Middle(m.host, Some(t), d, r))
  }

  function PortNumber(port: Option<bytes>, ssl: bool): Option<nat> {
    if port.None? then Some(if ssl then 5671 else 5672)
    else
      match Decimal(Cut(port.value))
      case None => None
      case Some(n) => if n < 0 || n > 65535 then None else Some(n)
  }

  function ReadVhost(delim: byte, rest: bytes): Option<bytes> {
    if delim == 0 then Some([SLASH])
    else if delim != SLASH then None
    else
      match Scan(rest, true)
      case Malformed => None
      case Found(v, d, _) => if d == 0 then Some(Cut(v)) else None
  }

  function ReadAll(s: bytes, ssl: bool): Option<Info> {
    match ReadFront(s)
    case None => None
    case Some(f) =>
      match ReadHost(f)
      case None => None
      case Some(m) => ReadTail(f, m, ssl)
  }

  function ReadTail(f: Front, m: Middle, ssl: bool): Option<Info> {
    match ReadPort(m)
    case None => None
    case Some(t) =>
      var port, vhost := PortNumber(t.port, ssl), ReadVhost(t.delim, t.rest);
      if port.None? || vhost.None? then None
      else Some(Info(Text(f.user, GUEST), Text(f.password, GUEST), Text(m.host, LOCALHOST), port.value,
                     vhost.value, ssl))
  }

  function ReadUrl(s: bytes): Option<Info> {
    if AMQP_PREFIX <= s then ReadAll(s[7..], false)
    else if AMQPS_PREFIX <= s then ReadAll(s[8..], true)
    else None
  }

  // ---------------------------------------------------------------- the parser as it runs

  /** `at` points to `text`, terminated before `limit`. */
  predicate Kept(s: bytes, at: Option<nat>, text: Option<bytes>, limit: nat) {
    (at.Some? <==> text.Some?)
    && (at.Some? ==> at.value + |text.value| < limit && At(s, at.value, text.value + [0]))
  }

  lemma KeptShape(s: bytes, at: Option<nat>, text: Option<bytes>, limit: nat)
    requires Kept(s, at, text, limit)
    ensures at.Some? <==> text.Some?
  {
  }

  /** Scanning on from `limit` leaves earlier components alone. */
  lemma KeptOn(s: bytes, s': bytes, at: Option<nat>, text: Option<bytes>, limit: nat, limit': nat)
    requires Kept(s, at, text, limit) && limit <= limit' && limit <= |s| && limit <= |s'| && s[..limit] == s'[..limit]
    ensures Kept(s', at, text, limit')
  {
    if at.Some? {
      AtInFront(s, limit, at.value, text.value + [0]);
      AtInFront(s', limit, at.value, text.value + [0]);
    }
  }

  lemma AtInFront(s: bytes, limit: nat, at: nat, w: bytes)
    requires at + |w| <= limit <= |s|
    ensures At(s, at, w) <==> At(s[..limit], at, w)
  {
    assert s[..limit][at..at + |w|] == s[at..at + |w|];
  }

  /** The cursor stands behind `delim`, in front of what is left of the URL. */
  predicate Cursor(url: array<byte>, end: nat, cursor: nat, delim: byte, rest: bytes)
    reads url
  {
    && cursor <= end + 1 <= url.Length && url[end] == 0 && delim != PERCENT
    && (delim != 0 ==> Terminated(url, cursor, end) && rest == url[cursor..end])
  }

  /** `find_delim` as its caller uses it: `*pp` is the cursor. */
  method NextDelim(url: array<byte>, p: nat, ghost end: nat, colonAndAt: bool) returns (delim: byte, cursor: nat)
    requires Terminated(url, p, end)
    modifies url
    ensures url[end] == 0 && url[..p] == old(url[..p])
    ensures match Scan(old(url[p..end]), colonAndAt)
            case Malformed => delim == PERCENT
            case Found(text, d, rest) =>
              && p < cursor && delim == d && Cursor(url, end, cursor, d, rest)
              && Kept(url[..], Some(p), Some(text), cursor)
  {
    hide Scan;
    ghost var before, s := url[..], url[p..end];
    assert before[p..end] == s;
    delim, cursor := FindDelim(url, p, end, colonAndAt);
    if delim != PERCENT && delim != 0 {
      CursorAfter(before, url[..], p, end, Scan(s, colonAndAt), delim, cursor);
      assert url[..][cursor..end] == url[cursor..end];
    }
  }

  lemma CursorAfter(before: bytes, now: bytes, p: nat, end: nat, scanned: Scanned, delim: byte, cursor: nat)
    requires DelimFound(before, now, p, end, scanned, delim, cursor) && delim != 0
    requires end <= |before| && 0 !in before[p..end]
    ensures cursor <= end && 0 !in now[cursor..end]
  {
    forall i | cursor <= i < end ensures now[i] != 0 {
      assert now[cursor..][i - cursor] == before[cursor..][i - cursor];
      assert before[i] == before[p..end][i - p];
    }
  }

  /** The start of `amqp_parse_url`, up to the host. */
  method ParseFront(url: array<byte>, p: nat, ghost end: nat)
    returns (user: Option<nat>, password: Option<nat>, host: nat, start: nat, port: Option<nat>, delim: byte,
             cursor: nat)
    requires Terminated(url, p, end)
    modifies url
    ensures url[end] == 0 && host <= end && start <= end && (port.Some? ==> port.value <= end)
    ensures match ReadFront(old(url[p..end]))
            case None => delim == PERCENT
            case Some(f) =>
              && delim == f.delim && Cursor(url, end, cursor, delim, f.rest) && (host == start) == f.hostIsStart
              && Kept(url[..], user, f.user, cursor) && Kept(url[..], password, f.password, cursor)
              && Kept(url[..], Some(host), Some(f.host), cursor) && Kept(url[..], port, f.port, cursor)
  {
    hide Scan;
    user, password, port := None, None, None;
    host, start := p, p;
    ghost var s := url[p..end];
    delim, cursor := NextDelim(url, p, end, true);
    if delim == COLON {
      ghost var now, limit, a := url[..], cursor, Scan(s, true).text;
      port, start := Some(cursor), cursor;
      delim, cursor := NextDelim(url, cursor, end, true);
      if delim != PERCENT {
        KeptOn(now, url[..], Some(p), Some(a), limit, cursor);
      }
    }
    if delim == AT_SIGN {
      ghost var now, limit := url[..], cursor;
      ghost var a := Scan(s, true);
      ghost var b := if port.Some? then Some(Scan(a.rest, true).text) else None;
      user, password := Some(host), port;
      port, host, start := None, cursor, cursor;
      delim, cursor := NextDelim(url, cursor, end, true);
      if delim != PERCENT {
        KeptOn(now, url[..], user, Some(a.text), limit, cursor);
        KeptOn(now, url[..], password, b, limit, cursor);
      }
    }
  }

  lemma {:induction false} CutPrefix(s: bytes, t: bytes)
    requires |t| < |s| && s[|t|] == 0 && forall i :: 0 <= i < |t| ==> s[i] == t[i]
    ensures Cut(s) == Cut(t)
  {
    if t != [] && t[0] != 0 {
      CutPrefix(s[1..], t[1..]);
    }
  }

  lemma KeptBytes(s: bytes, p: nat, t: bytes, limit: nat)
    requires Kept(s, Some(p), Some(t), limit)
    ensures p + |t| < |s| && s[p + |t|] == 0 && forall i :: 0 <= i < |t| ==> s[p + i] == t[i]
  {
    var w := s[p..p + |t| + 1];
    assert w == t + [0];
    assert forall i :: 0 <= i <= |t| ==> s[p + i] == w[i];
  }

  lemma CutEmpty(t: bytes)
    ensures Cut(t) == [] <==> t == [] || t[0] == 0
  {
  }

  /** The string at a component's place is the component. */
  lemma {:induction false} CutKept(s: bytes, p: nat, t: bytes, limit: nat)
    requires Kept(s, Some(p), Some(t), limit)
    ensures p + |t| < |s| && Cut(s[p..]) == Cut(t)
    ensures s[p] != 0 <==> Cut(t) != []
  {
    hide Kept, Cut;
    KeptBytes(s, p, t, limit);
    CutEmpty(t);
    CutPrefix(s[p..], t);
    assert t != [] ==> s[p + 0] == t[0];
  }

  /** The host, between brackets or not. */
  method ParseHost(url: array<byte>, ghost end: nat, ghost f: Front, host: nat, start: nat, port: Option<nat>,
                   delim: byte, cursor: nat)
    returns (ok: bool, host': Option<nat>, port': Option<nat>, delim': byte, cursor': nat)
    requires delim == f.delim && Cursor(url, end, cursor, delim, f.rest) && (host == start) == f.hostIsStart
    requires Kept(url[..], Some(host), Some(f.host), cursor) && Kept(url[..], port, f.port, cursor)
    requires f.delim == OPENING && f.hostIsStart ==> f.port.None?
    modifies url
    ensures cursor <= end + 1 <= url.Length && url[..cursor] == old(url[..cursor])
    ensures match ReadHost(f)
            case None => !ok || delim' == PERCENT
            case Some(m) =>
              && ok && delim' == m.delim && cursor <= cursor' && Cursor(url, end, cursor', m.delim, m.rest)
              && Kept(url[..], host', m.host, cursor') && Kept(url[..], port', m.port, cursor')
  {
    hide Scan, Cut;
    ok, host', port', delim', cursor' := true, None, port, delim, cursor;
    CutKept(url[..], host, f.host, cursor);
    if delim == OPENING {
      if host != start || url[host] != 0 {
        ok := false;
        return;
      }
      delim', cursor' := NextDelim(url, cursor, end, false);
      if delim' != CLOSING {
        ok := false;
        return;
      }
      host' := Some(cursor);
      ghost var now, h := url[..], Scan(f.rest, false);
      var after := cursor';
      delim', cursor' := NextDelim(url, after, end, true);
      if delim' != PERCENT {
        KeptOn(now, url[..], host', Some(h.text), after, cursor');
        CutKept(url[..], after, Scan(h.rest, true).text, cursor');
      }
      if url[after] != 0 {
        ok := false;
      }
    } else {
      if url[host] != 0 {
        host' := Some(host);
      }
    }
  }

  /** A port behind the host. */
  method ParsePort(url: array<byte>, ghost end: nat, ghost m: Middle, port: Option<nat>, delim: byte, cursor: nat)
    returns (port': Option<nat>, delim': byte, cursor': nat)
    requires delim == m.delim && Cursor(url, end, cursor, delim, m.rest) && Kept(url[..], port, m.port, cursor)
    modifies url
    ensures cursor <= end + 1 <= url.Length && url[..cursor] == old(url[..cursor])
    ensures match ReadPort(m)
            case None => delim' == PERCENT
            case Some(t) =>
              && delim' == t.delim && cursor <= cursor' && Cursor(url, end, cursor', t.delim, t.rest)
              && Kept(url[..], port', t.port, cursor')
  {
    hide Scan;
    port', delim', cursor' := port, delim, cursor;
    if delim == COLON {
      port' := Some(cursor);
      delim', cursor' := NextDelim(url, cursor, end, true);
    }
  }

  lemma DigitStep(sofar: nat, t: bytes, i: nat)
    requires i < |t|
    ensures Digits(sofar, t[i..]) ==
      if 48 <= t[i] <= 57 then Digits(sofar * 10 + t[i] - 48, t[i + 1..]) else None
  {
    assert t[i..][0] == t[i] && t[i..][1..] == t[i + 1..];
  }

  lemma SkipStep(t: bytes, i: nat)
    requires i <= |t|
    ensures SkipSpaces(t[i..]) == if i < |t| && IsSpace(t[i]) then SkipSpaces(t[i + 1..]) else t[i..]
  {
    assert i < |t| ==> t[i..][0] == t[i] && t[i..][1..] == t[i + 1..];
  }

  /** `strtol(port, &end, 10)`, with the tests on `end`. */
  method ParseNumber(url: array<byte>, p: nat, ghost text: bytes, ghost limit: nat) returns (number: Option<int>)
    requires Kept(url[..], Some(p), Some(text), limit)
    ensures number == Decimal(Cut(text))
  {
    hide Cut, Unsigned, SkipSpaces;
    ghost var t := Cut(text);
    CutPlaces(url[..], p, text, limit);
    var i := p;
    assert t[0..] == t;
    SkipStep(t, 0);
    while IsSpace(url[i])
      invariant p <= i <= p + |t| < url.Length
      invariant SkipSpaces(t) == SkipSpaces(t[i - p..])
      invariant SkipSpaces(t[i - p..]) ==
        if i < p + |t| && IsSpace(t[i - p]) then SkipSpaces(t[i - p + 1..]) else t[i - p..]
      decreases url.Length - i
    {
      i := i + 1;
      SkipStep(t, i - p);
    }
    var sign := url[i];
    if sign == PLUS || sign == MINUS {
      assert t[i - p..][0] == sign && t[i - p..][1..] == t[i - p + 1..];
      i := i + 1;
    }
    var n := ParseDigits(url, p, i, t);
    return if sign == MINUS then Negated(n) else n;
  }

  /** The digits, from `from` on. */
  method ParseDigits(url: array<byte>, p: nat, from: nat, ghost t: bytes) returns (number: Option<nat>)
    requires p <= from <= p + |t| < url.Length && url[p + |t|] == 0
    requires forall i :: 0 <= i < |t| ==> url[p + i] == t[i] != 0
    ensures number == Unsigned(t[from - p..])
  {
    hide Digits;
    var i, n: nat := from, 0;
    while 48 <= url[i] <= 57
      invariant from <= i <= p + |t| < url.Length
      invariant Digits(0, t[from - p..]) == Digits(n, t[i - p..])
      decreases url.Length - i
    {
      DigitStep(n, t, i - p);
      n := n * 10 + url[i] - 48;
      i := i + 1;
    }
    DigitsEnd(n);
    assert t[|t|..] == [];
    if i < p + |t| {
      DigitStep(n, t, i - p);
    }
    return if i == from || url[i] != 0 then None else Some(n);
  }

  lemma DigitsEnd(n: nat)
    ensures Digits(n, []) == Some(n)
  {
  }

  lemma CutPlaces(s: bytes, p: nat, text: bytes, limit: nat)
    requires Kept(s, Some(p), Some(text), limit)
    ensures var t := Cut(text); p + |t| < |s| && s[p + |t|] == 0 && forall j :: 0 <= j < |t| ==> s[p + j] == t[j] != 0
  {
    hide Cut;
    CutMeans(text);
    var t, w := Cut(text), s[p..p + |text| + 1];
    assert w == text + [0];
    assert forall j :: 0 <= j <= |t| ==> s[p + j] == w[j];
  }

  /** Where the components ended up; an absent one keeps its default. */
  datatype Parsed = Parsed(user: Option<nat>, password: Option<nat>, host: Option<nat>, vhost: Option<nat>,
                           port: nat, ssl: bool)

  function StringAt(s: bytes, at: Option<nat>, default: bytes): bytes {
    if at.None? || at.value > |s| then default else Cut(s[at.value..])
  }

  function Resolve(s: bytes, p: Parsed): Info {
    Info(StringAt(s, p.user, GUEST), StringAt(s, p.password, GUEST), StringAt(s, p.host, LOCALHOST), p.port,
         StringAt(s, p.vhost, [SLASH]), p.ssl)
  }

  lemma Resolved(s: bytes, at: Option<nat>, text: Option<bytes>, limit: nat, default: bytes)
    requires Kept(s, at, text, limit)
    ensures StringAt(s, at, default) == Text(text, default)
  {
    hide Cut;
    if at.Some? {
      CutKept(s, at.value, text.value, limit);
    }
  }

  /** The vhost, and the end of the URL. */
  method ParseVhost(url: array<byte>, ghost end: nat, ghost rest: bytes, delim: byte, cursor: nat)
    returns (status: Status, vhost: Option<nat>)
    requires Cursor(url, end, cursor, delim, rest)
    modifies url
    ensures cursor <= end + 1 <= url.Length && url[..cursor] == old(url[..cursor])
    ensures status == if ReadVhost(delim, rest).Some? then Ok else BadUrl
    ensures status == Ok ==> StringAt(url[..], vhost, [SLASH]) == ReadVhost(delim, rest).value
  {
    hide Scan, Cut;
    status, vhost := BadUrl, None;
    if delim == SLASH {
      var delim', cursor' := NextDelim(url, cursor, end, true);
      if delim' != 0 {
        return;
      }
      vhost := Some(cursor);
      CutKept(url[..], cursor, Scan(rest, true).text, cursor');
      status := Ok;
    } else if delim == 0 {
      status := Ok;
    }
  }

  /** `amqp_parse_url` leaves the URL's components in its buffer, each a string of its own. */
  method ParseUrl(url: array<byte>, ghost end: nat) returns (status: Status, parsed: Parsed)
    requires Terminated(url, 0, end)
    modifies url
    ensures match ReadUrl(old(url[..end]))
            case None => status == BadUrl
            case Some(info) => status == Ok && Resolve(url[..], parsed) == info
  {
    hide ReadFront, ReadHost, ReadPort, ReadVhost, Decimal;
    status, parsed := BadUrl, Parsed(None, None, None, None, 5672, false);
    ghost var s := url[..end];
    var p := 7;
    PrefixTest(url[..], end, AMQP_PREFIX);
    PrefixTest(url[..], end, AMQPS_PREFIX);
    if !(AMQP_PREFIX <= url[..]) {
      if !(AMQPS_PREFIX <= url[..]) {
        return;
      }
      parsed := parsed.(port := 5671, ssl := true);
      p := 8;
    }
    assert s[p..] == url[p..end];
    status, parsed := ParseFrom(url, p, end, parsed);
  }

  lemma PrefixTest(s: bytes, end: nat, prefix: bytes)
    requires end < |s| && s[end] == 0 && 0 !in prefix
    ensures prefix <= s <==> prefix <= s[..end]
  {
    if end < |prefix| {
      assert prefix[end] in prefix;
    }
  }

  /** `amqp_parse_url` behind the prefix. The delimiter that stands for a malformed escape fails
      every later test, so it is answered at once. */
  method ParseFrom(url: array<byte>, p: nat, ghost end: nat, defaults: Parsed) returns (status: Status, parsed: Parsed)
    requires Terminated(url, p, end)
    requires defaults == Parsed(None, None, None, None, if defaults.ssl then 5671 else 5672, defaults.ssl)
    modifies url
    ensures match ReadAll(old(url[p..end]), defaults.ssl)
            case None => status == BadUrl
            case Some(info) => status == Ok && Resolve(url[..], parsed) == info
  {
    hide ReadFront, ReadHost, ReadPort, ReadVhost, Decimal, Kept, Cut;
    status, parsed := BadUrl, defaults;
    ghost var f := ReadFront(url[p..end]);
    FrontPort(url[p..end]);
    var user, password, host, start, port, delim, cursor := ParseFront(url, p, end);
    if delim == PERCENT {
      return;
    }
    ghost var s0, c0, m := url[..], cursor, ReadHost(f.value);
    var ok, hostAt;
    ok, hostAt, port, delim, cursor := ParseHost(url, end, f.value, host, start, port, delim, cursor);
    if !ok || delim == PERCENT {
      return;
    }
    ghost var s1, c1, t := url[..], cursor, ReadPort(m.value);
    port, delim, cursor := ParsePort(url, end, m.value, port, delim, cursor);
    if delim == PERCENT {
      return;
    }
    KeptShape(url[..], port, t.value.port, cursor);
    if port.Some? {
      var number := ParseNumber(url, port.value, t.value.port.value, cursor);
      if number.None? || number.value < 0 || number.value > 65535 {
        return;
      }
      parsed := parsed.(port := number.value);
    }
    ghost var s2, c2 := url[..], cursor;
    var vhost;
    status, vhost := ParseVhost(url, end, t.value.rest, delim, cursor);
    parsed := parsed.(user := user, password := password, host := hostAt, vhost := vhost);
    Survives(s0, s1, s2, url[..], c0, c1, c2, user, f.value.user, GUEST);
    Survives(s0, s1, s2, url[..], c0, c1, c2, password, f.value.password, GUEST);
    Survives(s1, s1, s2, url[..], c1, c1, c2, hostAt, m.value.host, LOCALHOST);
  }

  /** A component read early is still there at the end. */
  lemma Survives(s0: bytes, s1: bytes, s2: bytes, s3: bytes, c0: nat, c1: nat, c2: nat, at: Option<nat>,
                 text: Option<bytes>, default: bytes)
    requires Kept(s0, at, text, c0) && c0 <= c1 <= c2 <= |s0| == |s1| == |s2| == |s3|
    requires s0[..c0] == s1[..c0] && s1[..c1] == s2[..c1] && s2[..c2] == s3[..c2]
    ensures StringAt(s3, at, default) == Text(text, default)
  {
    hide Kept;
    KeptOn(s0, s1, at, text, c0, c1);
    KeptOn(s1, s2, at, text, c1, c2);
    KeptOn(s2, s3, at, text, c2, c2);
    Resolved(s3, at, text, c2, default);
  }

  lemma FrontPort(s: bytes)
    ensures ReadFront(s).Some? && ReadFront(s).value.hostIsStart ==> ReadFront(s).value.port.None?
  {
  }

  // ---------------------------------------------------------------- the inverse

  /** `form` spells `text`: each character as itself, when it is no delimiter and no percent sign,
      or as a percent sign and the two characters of an escape. */
  predicate Spells(form: bytes, text: bytes, colonAndAt: bool)
    decreases |text|
  {
    if text == [] then form == []
    else
      || (form != [] && form[0] == text[0] != PERCENT && !IsDelim(text[0], colonAndAt)
          && Spells(form[1..], text[1..], colonAndAt))
      || (|form| >= 3 && form[0] == PERCENT && Escape(form[1..]) == Some(text[0])
          && Spells(form[3..], text[1..], colonAndAt))
  }

  function Head(t: bytes): byte { if t == [] then 0 else t[0] }

  function Tail(t: bytes): bytes { if t == [] then [] else t[1..] }

  predicate SpelledPlain(form: bytes, text: bytes, colonAndAt: bool)
    requires text != []
  {
    form != [] && form[0] == text[0] != PERCENT && !IsDelim(text[0], colonAndAt)
    && Spells(form[1..], text[1..], colonAndAt)
  }

  predicate SpelledEscaped(form: bytes, text: bytes, colonAndAt: bool)
    requires text != []
  {
    |form| >= 3 && form[0] == PERCENT && Escape(form[1..]) == Some(text[0])
    && Spells(form[3..], text[1..], colonAndAt)
  }

  lemma SpelledEither(form: bytes, text: bytes, colonAndAt: bool)
    requires Spells(form, text, colonAndAt)
    ensures text == [] ==> form == []
    ensures text != [] ==> SpelledPlain(form, text, colonAndAt) || SpelledEscaped(form, text, colonAndAt)
  {
  }

  /** Scanning a spelled component up to the next delimiter gives the component. */
  lemma {:induction false} ScanSpelled(form: bytes, text: bytes, tail: bytes, colonAndAt: bool)
    requires Spells(form, text, colonAndAt) && (tail == [] || IsDelim(tail[0], colonAndAt))
    ensures Scan(form + tail, colonAndAt) == Found(text, Head(tail), Tail(tail))
    decreases |text|
  {
    hide IsDelim, Scan, Spells, SpelledPlain, SpelledEscaped;
    SpelledEither(form, text, colonAndAt);
    if text == [] {
      assert form + tail == tail;
      ScanNothing(tail, colonAndAt);
    } else if SpelledPlain(form, text, colonAndAt) {
      PlainScans(form, text, tail, colonAndAt);
      ScanSpelled(form[1..], text[1..], tail, colonAndAt);
    } else {
      EscapedScans(form, text, tail, colonAndAt);
      ScanSpelled(form[3..], text[1..], tail, colonAndAt);
    }
  }

  /** One character further along, spelled as itself. */
  lemma PlainScans(form: bytes, text: bytes, tail: bytes, colonAndAt: bool)
    requires text != [] && SpelledPlain(form, text, colonAndAt)
    ensures form != [] && Spells(form[1..], text[1..], colonAndAt)
    ensures Scan(form[1..] + tail, colonAndAt).Found? && Scan(form[1..] + tail, colonAndAt).text == text[1..] ==>
      Scan(form + tail, colonAndAt) == Scan(form[1..] + tail, colonAndAt).(text := text)
  {
    hide Escape, IsDelim, Spells, Scan;
    var s := form + tail;
    assert s[0] == form[0];
    DropFront(form, tail, 1);
    ScanStep(s, colonAndAt, []);
    NothingYet(Scan(s, colonAndAt));
    assert text == [text[0]] + text[1..];
  }

  /** And spelled as an escape. */
  lemma EscapedScans(form: bytes, text: bytes, tail: bytes, colonAndAt: bool)
    requires text != [] && SpelledEscaped(form, text, colonAndAt)
    requires tail == [] || IsDelim(tail[0], colonAndAt)
    ensures |form| >= 3 && Spells(form[3..], text[1..], colonAndAt)
    ensures Scan(form[3..] + tail, colonAndAt).Found? && Scan(form[3..] + tail, colonAndAt).text == text[1..] ==>
      Scan(form + tail, colonAndAt) == Scan(form[3..] + tail, colonAndAt).(text := text)
  {
    hide Escape, IsDelim, Spells, Scan;
    EscapeThenTail(form[1..], tail, colonAndAt);
    DropFront(form, tail, 1);
    DropFront(form, tail, 3);
    assert text == [text[0]] + text[1..];
    ScanEscape(form + tail, text[0], colonAndAt);
  }

  lemma ScanEscape(s: bytes, c: byte, colonAndAt: bool)
    requires s != [] && s[0] == PERCENT && Escape(s[1..]) == Some(c)
    ensures Scan(s, colonAndAt) == Before(c, Scan(s[3..], colonAndAt))
  {
    hide Escape;
  }

  lemma DropFront(a: bytes, b: bytes, n: nat)
    requires n <= |a|
    ensures (a + b)[n..] == a[n..] + b
  {
  }

  function Closing(delim: byte, rest: bytes): bytes {
    if delim == 0 then [] else [delim] + rest
  }

  /** And only a spelled component followed by a delimiter or the end is scanned. */
  lemma {:induction false} ScannedIsSpelled(s: bytes, colonAndAt: bool) returns (form: bytes)
    requires 0 !in s && Scan(s, colonAndAt).Found?
    ensures var r := Scan(s, colonAndAt);
      Spells(form, r.text, colonAndAt) && s == form + Closing(r.delim, r.rest)
      && (r.delim != 0 ==> IsDelim(r.delim, colonAndAt))
    decreases |s|
  {
    hide Escape, IsDelim, Spells;
    DelimValues(0, colonAndAt);
    form := [];
    EmptySpelled(colonAndAt);
    if s != [] && !IsDelim(s[0], colonAndAt) {
      var n := if s[0] == PERCENT then 3 else 1;
      assert forall c :: c in s[n..] ==> c in s;
      var later := ScannedIsSpelled(s[n..], colonAndAt);
      form := s[..n] + later;
      var r := Scan(s[n..], colonAndAt);
      ConcatAssoc(s[..n], later, Closing(r.delim, r.rest));
      assert s == s[..n] + s[n..];
      SpelledCons(s, n, later, r.text, colonAndAt);
    } else if s != [] {
      assert s == [s[0]] + s[1..];
      assert s[0] in s;
    }
  }

  lemma EmptySpelled(colonAndAt: bool)
    ensures Spells([], [], colonAndAt)
  {
  }

  lemma SpelledCons(s: bytes, n: nat, later: bytes, text: bytes, colonAndAt: bool)
    requires s != [] && !IsDelim(s[0], colonAndAt) && Spells(later, text, colonAndAt)
    requires |s| >= n && later <= s[n..]
    requires n == if s[0] == PERCENT then 3 else 1
    requires s[0] == PERCENT ==> Escape(s[1..]).Some?
    ensures Spells(s[..n] + later, [if s[0] == PERCENT then Escape(s[1..]).value else s[0]] + text, colonAndAt)
  {
    hide IsDelim;
    var form := s[..n] + later;
    assert form[n..] == later;
    if s[0] == PERCENT {
      assert form[1..][0] == s[1..][0] && form[1..][1] == s[1..][1];
    }
  }

  /** A delimiter ends the number of an escape. */
  lemma EscapeThenTail(s: bytes, tail: bytes, colonAndAt: bool)
    requires Escape(s).Some? && (tail == [] || IsDelim(tail[0], colonAndAt))
    ensures Escape(s + tail) == Escape(s)
  {
  }

  datatype Spelling = Spelling(text: bytes, form: bytes) {
    predicate Valid(colonAndAt: bool) {
      Spells(form, text, colonAndAt) && 0 !in text
    }
  }

  /** The parts of a URL, as a caller would put one together. */
  datatype Parts = Parts(user: Option<Spelling>, password: Option<Spelling>, bracketed: bool, host: Spelling,
                         port: Option<Spelling>, vhost: Option<Spelling>, ssl: bool)

  predicate ValidParts(p: Parts) {
    && (p.user.Some? ==> p.user.value.Valid(true))
    && (p.password.Some? ==> p.user.Some? && p.password.value.Valid(true))
    && p.host.Valid(!p.bracketed)
    && (p.port.Some? ==> p.port.value.Valid(true))
    && (p.vhost.Some? ==> p.vhost.value.Valid(true))
  }

  function VhostPart(p: Parts): bytes {
    if p.vhost.Some? then [SLASH] + p.vhost.value.form else []
  }

  function PortPart(p: Parts): bytes {
    (if p.port.Some? then [COLON] + p.port.value.form else []) + VhostPart(p)
  }

  function HostPart(p: Parts): bytes {
    (if p.bracketed then [OPENING] + p.host.form + [CLOSING] else p.host.form) + PortPart(p)
  }

  function UserPart(p: Parts): bytes {
    if p.user.None? then HostPart(p)
    else p.user.value.form
         + (if p.password.Some? then [COLON] + p.password.value.form else []) + [AT_SIGN] + HostPart(p)
  }

  function UrlOf(p: Parts): bytes {
    (if p.ssl then AMQPS_PREFIX else AMQP_PREFIX) + UserPart(p)
  }

  function TextOf(t: Option<Spelling>, default: bytes): bytes {
    if t.Some? then t.value.text else default
  }

  function OptionText(t: Option<Spelling>): Option<bytes> {
    if t.Some? then Some(t.value.text) else None
  }

  lemma {:induction false} CutWhole(s: bytes)
    requires 0 !in s
    ensures Cut(s) == s
  {
    if s != [] {
      assert forall c :: c in s[1..] ==> c in s;
      CutWhole(s[1..]);
    }
  }

  lemma VhostReadsBack(p: Parts)
    requires ValidParts(p)
    ensures ReadVhost(Head(VhostPart(p)), Tail(VhostPart(p))) == Some(TextOf(p.vhost, [SLASH]))
  {
    hide Scan, Cut, Spells;
    if p.vhost.Some? {
      var v := p.vhost.value;
      assert VhostPart(p)[1..] == v.form + [];
      ScanSpelled(v.form, v.text, [], true);
      CutWhole(v.text);
    }
  }

  lemma PortReadsBack(p: Parts, host: Option<bytes>)
    requires ValidParts(p)
    ensures ReadPort(Middle(host, None, Head(PortPart(p)), Tail(PortPart(p))))
         == Some(Middle(host, OptionText(p.port), Head(VhostPart(p)), Tail(VhostPart(p))))
  {
    hide Scan, Spells;
    if p.port.Some? {
      var t := p.port.value;
      assert PortPart(p)[0] == COLON && PortPart(p)[1..] == t.form + VhostPart(p);
      ScanSpelled(t.form, t.text, VhostPart(p), true);
    } else {
      assert PortPart(p) == VhostPart(p);
    }
  }

  /** The host as the parser keeps it: none, when it is empty and not in brackets. */
  function HostText(p: Parts): Option<bytes> {
    if p.bracketed || p.host.text != [] then Some(p.host.text) else None
  }

  lemma HostReadsBack(p: Parts, user: Option<bytes>, password: Option<bytes>)
    requires ValidParts(p)
    ensures var f := HostFront(user, password, HostPart(p));
      f.Some? && f.value.user == user && f.value.password == password
      && ReadHost(f.value) == Some(Middle(HostText(p), None, Head(PortPart(p)), Tail(PortPart(p))))
  {
    hide Scan, Spells, Cut, PortPart;
    var h, t := p.host, PortPart(p);
    CutWhole(h.text);
    TailDelim(p);
    if p.bracketed {
      BracketedScans(h.form, h.text, t);
    } else {
      ScanSpelled(h.form, h.text, t, true);
    }
  }

  lemma TailDelim(p: Parts)
    ensures var t := PortPart(p); t == [] || IsDelim(t[0], true)
    ensures Head(PortPart(p)) in {0, COLON, SLASH}
  {
  }

  lemma ScanNothing(t: bytes, colonAndAt: bool)
    requires t == [] || IsDelim(t[0], colonAndAt)
    ensures Scan(t, colonAndAt) == Found([], Head(t), Tail(t))
  {
  }

  lemma {:induction false} BracketedScans(form: bytes, text: bytes, t: bytes)
    requires Spells(form, text, false) && (t == [] || IsDelim(t[0], true))
    ensures var s := [OPENING] + form + [CLOSING] + t;
      Scan(s, true) == Found([], OPENING, form + [CLOSING] + t)
    ensures Scan(form + [CLOSING] + t, false) == Found(text, CLOSING, t)
    ensures Scan(t, true) == Found([], Head(t), Tail(t)) && Cut([]) == []
  {
    hide Scan, Spells;
    var s, later := [OPENING] + form + [CLOSING] + t, [CLOSING] + t;
    ScanNothing(s, true);
    assert s[1..] == form + [CLOSING] + t == form + later;
    ScanSpelled(form, text, later, false);
    assert later[1..] == t;
    ScanNothing(t, true);
  }

  /** Without user information the first component is the host itself, and what follows a colon
      is the port. */
  lemma PlainFrontReadsBack(p: Parts)
    requires ValidParts(p) && p.user.None?
    ensures var f := ReadFront(UserPart(p));
      f.Some? && f.value.user.None? && f.value.password.None? && ReadHost(f.value).Some?
      && var m := ReadHost(f.value).value;
         m.host == HostText(p)
         && ReadPort(m) == Some(Middle(m.host, OptionText(p.port), Head(VhostPart(p)), Tail(VhostPart(p))))
  {
    hide Scan, Spells, Cut, HostFront, Head, Tail;
    if p.port.Some? && !p.bracketed {
      HostThenPort(p);
    } else {
      PortReadsBack(p, HostText(p));
      HostReadsBack(p, None, None);
      PlainFront(p);
    }
  }

  lemma HostThenPort(p: Parts)
    requires ValidParts(p) && p.user.None? && p.port.Some? && !p.bracketed
    ensures ReadFront(UserPart(p)) ==
      Some(Front(None, None, p.host.text, false, OptionText(p.port), Head(VhostPart(p)), Tail(VhostPart(p))))
    ensures Cut(p.host.text) == p.host.text && Head(VhostPart(p)) in {0, SLASH}
  {
    hide Scan, Spells, Cut;
    var t := p.port.value;
    CutWhole(p.host.text);
    assert PortPart(p)[0] == COLON && PortPart(p)[1..] == t.form + VhostPart(p);
    ScanSpelled(p.host.form, p.host.text, PortPart(p), true);
    ScanSpelled(t.form, t.text, VhostPart(p), true);
  }

  /** Unless a port follows an unbracketed host, reading the front is reading the host. */
  lemma PlainFront(p: Parts)
    requires ValidParts(p) && p.user.None? && !(p.port.Some? && !p.bracketed)
    ensures ReadFront(UserPart(p)) == HostFront(None, None, HostPart(p))
  {
    hide Scan, Spells;
    if p.bracketed {
      assert HostPart(p)[0] == OPENING;
      ScanNothing(HostPart(p), true);
    } else {
      assert PortPart(p) == VhostPart(p);
      ScanSpelled(p.host.form, p.host.text, PortPart(p), true);
    }
  }

  /** With user information, what comes before the at sign is user and password. */
  lemma UserFrontReadsBack(p: Parts)
    requires ValidParts(p) && p.user.Some?
    ensures ReadFront(UserPart(p)) == HostFront(OptionText(p.user), OptionText(p.password), HostPart(p))
  {
    hide Scan, Spells, HostFront, HostPart;
    var u, rest := p.user.value, [AT_SIGN] + HostPart(p);
    assert rest[1..] == HostPart(p);
    if p.password.Some? {
      var w := p.password.value;
      var after := [COLON] + w.form + rest;
      assert UserPart(p) == u.form + after && after[1..] == w.form + rest;
      ScanSpelled(u.form, u.text, after, true);
      ScanSpelled(w.form, w.text, rest, true);
    } else {
      assert UserPart(p) == u.form + rest;
      ScanSpelled(u.form, u.text, rest, true);
    }
  }

  /** The port's text is a number, and one that fits. */
  predicate ProperPort(p: Parts) {
    PortNumber(OptionText(p.port), p.ssl).Some?
  }

  /** What the parts stand for, with the defaults for parts left out. */
  function InfoOf(p: Parts): Info
    requires ProperPort(p)
  {
    Info(TextOf(p.user, GUEST), TextOf(p.password, GUEST), Text(HostText(p), LOCALHOST),
         PortNumber(OptionText(p.port), p.ssl).value, TextOf(p.vhost, [SLASH]), p.ssl)
  }

  lemma AllReadsBack(p: Parts)
    requires ValidParts(p)
    ensures ReadAll(UserPart(p), p.ssl) == if ProperPort(p) then Some(InfoOf(p)) else None
  {
    hide ReadFront, ReadHost, ReadVhost, ReadPort, HostFront, UserPart, Spells, Cut, Scan, Decimal, Head, Tail;
    VhostReadsBack(p);
    Cuts(p);
    if p.user.None? {
      PlainFrontReadsBack(p);
    } else {
      UserFrontReadsBack(p);
      HostReadsBack(p, OptionText(p.user), OptionText(p.password));
      PortReadsBack(p, HostText(p));
    }
  }

  /** The parser gives back the parts of every URL put together from them, whichever characters
      are percent-encoded, if and only if the port is a number up to 65535. */
  lemma UrlReadsBack(p: Parts)
    requires ValidParts(p)
    ensures ReadUrl(UrlOf(p)) == if ProperPort(p) then Some(InfoOf(p)) else None
  {
    hide ReadAll, ValidParts, UserPart, InfoOf, ProperPort;
    AllReadsBack(p);
    var prefix := if p.ssl then AMQPS_PREFIX else AMQP_PREFIX;
    assert UrlOf(p)[..|prefix|] == prefix && UrlOf(p)[|prefix|..] == UserPart(p);
    assert p.ssl ==> UrlOf(p)[4] == 115;
  }

  lemma Cuts(p: Parts)
    requires ValidParts(p)
    ensures p.user.Some? ==> Cut(p.user.value.text) == p.user.value.text
    ensures p.password.Some? ==> Cut(p.password.value.text) == p.password.value.text
    ensures Cut(p.host.text) == p.host.text
  {
    hide Cut, Spells;
    CutWhole(p.host.text);
    if p.user.Some? {
      CutWhole(p.user.value.text);
      if p.password.Some? {
        CutWhole(p.password.value.text);
      }
    }
  }

  // ---------------------------------------------------------------- every text has a spelling

  function UpperHex(d: nat): byte
    requires d < 16
  {
    if d < 10 then 48 + d else 55 + d
  }

  function PercentEncode(text: bytes): bytes {
    if text == [] then []
    else [PERCENT, UpperHex(text[0] / 16), UpperHex(text[0] % 16)] + PercentEncode(text[1..])
  }

  predicate Ascii(text: bytes) {
    forall c :: c in text ==> 1 <= c <= 127
  }

  lemma {:induction false} PercentEncodeSpells(text: bytes, colonAndAt: bool)
    requires Ascii(text)
    ensures Spells(PercentEncode(text), text, colonAndAt)
  {
    if text != [] {
      var e := PercentEncode(text);
      assert e[0] == PERCENT && e[1] == UpperHex(text[0] / 16) && e[2] == UpperHex(text[0] % 16);
      assert text[0] in text && forall c :: c in text[1..] ==> c in text;
      assert e[3..] == PercentEncode(text[1..]);
      PercentEncodeSpells(text[1..], colonAndAt);
    }
  }

  /** The decimal digits of a number. */
  function DecimalOf(n: nat): bytes {
    if n < 10 then [48 + n] else DecimalOf(n / 10) + [48 + n % 10]
  }

  lemma {:induction false} DigitsSnoc(sofar: nat, s: bytes, d: byte)
    requires 48 <= d <= 57 && Digits(sofar, s).Some?
    ensures Digits(sofar, s + [d]) == Some(Digits(sofar, s).value * 10 + d - 48)
    decreases |s|
  {
    if s == [] {
      assert (s + [d])[1..] == [];
    } else {
      assert (s + [d])[1..] == s[1..] + [d];
      DigitsSnoc(sofar * 10 + s[0] - 48, s[1..], d);
    }
  }

  lemma {:induction false} DigitsReadBack(n: nat)
    ensures var s := DecimalOf(n); s != [] && 48 <= s[0] <= 57 && Digits(0, s) == Some(n) && 0 !in s
  {
    if n < 10 {
      assert DecimalOf(n)[1..] == [] && Digits(n, []) == Some(n);
    } else {
      DigitsReadBack(n / 10);
      DigitsSnoc(0, DecimalOf(n / 10), 48 + n % 10);
    }
  }

  lemma DecimalReadsBack(n: nat)
    ensures Decimal(DecimalOf(n)) == Some(n) && 0 !in DecimalOf(n)
  {
    hide Digits, DecimalOf;
    DigitsReadBack(n);
  }

  /** Every user, password, nonempty host and vhost of characters 1 to 127 and every port can be
      written as a URL that the parser reads back. */
  lemma EveryConnectionHasAUrl(user: bytes, password: bytes, host: bytes, port: nat, vhost: bytes, ssl: bool)
    requires Ascii(user) && Ascii(password) && Ascii(host) && Ascii(vhost)
    requires host != [] && port <= 65535
    ensures var s := t => Some(Spelling(t, PercentEncode(t)));
      ReadUrl(UrlOf(Parts(s(user), s(password), false, s(host).value, s(DecimalOf(port)), s(vhost), ssl)))
        == Some(Info(user, password, host, port, vhost, ssl))
  {
    hide ReadUrl, UrlOf, Spells, Cut, Decimal, DecimalOf;
    PercentEncodeSpells(user, true);
    PercentEncodeSpells(password, true);
    PercentEncodeSpells(host, true);
    PercentEncodeSpells(vhost, true);
    DecimalReadsBack(port);
    DecimalSmall(port);
    PercentEncodeSpells(DecimalOf(port), true);
    CutWhole(DecimalOf(port));
    CutWhole(host);
    var s := t => Some(Spelling(t, PercentEncode(t)));
    UrlReadsBack(Parts(s(user), s(password), false, s(host).value, s(DecimalOf(port)), s(vhost), ssl));
  }

  lemma {:induction false} DecimalSmall(n: nat)
    ensures Ascii(DecimalOf(n))
  {
    if n >= 10 {
      DecimalSmall(n / 10);
    }
  }
}
