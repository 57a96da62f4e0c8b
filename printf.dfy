/**
 * `libMU_vsnprintf`: formatting into a character buffer of `size`
 * characters, the last of which is kept for the terminating NUL.
 *
 * The format is walked character by character while there is room: plain
 * characters are copied, `%%` writes one '%', and a directive
 * `%[fill][width][.prec]conv` takes the next argument. The fill is ' ' or
 * '0' (repeated fill characters are skipped), the width a decimal number
 * from a digit 1-9 on, the precision a decimal number after '.'. The
 * conversions are `s`, `i`, `d`, `u`, `x`, `X` and `c`; any other writes
 * the width (or three) error characters and ends the formatting.
 *
 * The variadic arguments are a sequence of tagged values, each taken by
 * the conversion of its kind; the format is the text before its NUL.
 */
module Printf {
  import opened Ints
  import opened Numerals
  import opened NumberText
  import NumberFields
  import Parse

  /** What `va_arg` reads for each conversion, in order. */
  datatype Arg = Int(i: i32) | UInt(u: u32) | Str(s: seq<char>) | Chr(c: char)

  /** A parsed directive: its fill character ('\0' for none), width and precision (-1 for none), and the index of its conversion character. */
  datatype Spec = Spec(fill: char, width: int, prec: int, conv: nat)

  // ---------------------------------------------------------------------
  // The specification

  /** `strlen`: the characters before the first NUL. */
  function Strlen(s: seq<char>): (n: nat)
    ensures n <= |s| && (n < |s| ==> s[n] == '\0')
    ensures forall k :: 0 <= k < n ==> s[k] != '\0'
  {
    if s == [] || s[0] == '\0' then 0 else 1 + Strlen(s[1..])
  }

  /** The index after the run of c from j on: repeated fill characters are skipped. */
  function RunEnd(f: seq<char>, j: nat, c: char): (k: nat)
    requires j <= |f| && c != '\0'
    ensures j <= k <= |f| && Parse.At(f, k) != c
    decreases |f| - j
  {
    if Parse.At(f, j) == c then RunEnd(f, j + 1, c) else j
  }

  /** A width read from a digit 1-9 on. */
  function Width(f: seq<char>, k: nat): (w: nat)
    requires k < |f| && '1' <= f[k] <= '9'
    ensures w >= 1 && w == Parse.Magnitude(f, k)
  {
    LeadingValue(f, k);
    Parse.Magnitude(f, k)
  }

  /** The directive after a '%' at j - 1: fill, width, precision, then the conversion character. */
  function ParseSpec(f: seq<char>, j: nat): (sp: Spec)
    requires j <= |f|
    ensures j <= sp.conv <= |f| && (sp.width == -1 || sp.width >= 1) && sp.prec >= -1
  {
    var c := Parse.At(f, j);
    var fill := if c == ' ' || c == '0' then c else '\0';
    var k := if fill != '\0' then RunEnd(f, j + 1, fill) else j;
    var wide := '1' <= Parse.At(f, k) <= '9';
    var width := if wide then Width(f, k) else -1;
    var m := if wide then Parse.DigitsEnd(f, k) else k;
    if Parse.At(f, m) == '.' then Spec(fill, width, Parse.Magnitude(f, m + 1), Parse.DigitsEnd(f, m + 1))
    else Spec(fill, width, -1, m)
  }

  /** The conversion characters the loop knows. */
  predicate Known(c: char)
  {
    c == 's' || c == 'i' || c == 'd' || c == 'u' || c == 'x' || c == 'X' || c == 'c'
  }

  /** How many characters of the string a `%s` shows: up to the precision, which the width bounds. */
  function Shown(s: seq<char>, width: int, prec: int): (len: nat)
    ensures len <= Strlen(s) && (width > 0 && prec >= -1 ==> len <= width)
  {
    var p := if width > 0 && (prec == -1 || prec > width) then width else prec;
    if p >= 0 && Strlen(s) > p then p else Strlen(s)
  }

  /**
   * The `%s` conversion in a room of `room` characters, as the counts of
   * fill before the string, characters of the string, and spaces after
   * it: with a fill, the fill up to the width before the string; without,
   * spaces up to the width after it; everything clipped to the room.
   */
  function StrLayout(s: seq<char>, fill: char, width: int, prec: int, room: nat): (r: (nat, nat, nat))
    ensures r.1 <= Strlen(s) && r.0 + r.1 + r.2 <= room
  {
    var len := Shown(s, width, prec);
    var lead := if fill != '\0' && width > len then Min(width - len, room) else 0;
    var shown := if lead + len >= room then room - lead else len;
    var trail := if fill == '\0' && width > shown then Min(width - shown, room - lead - shown) else 0;
    (lead, shown, trail)
  }

  /** The text of the `%s` conversion. */
  function StrText(s: seq<char>, fill: char, width: int, prec: int, room: nat): (t: seq<char>)
    ensures |t| <= room
  {
    var (lead, shown, trail) := StrLayout(s, fill, width, prec, room);
    Repeat(fill, lead) + s[..shown] + Repeat(' ', trail)
  }

  /** The error characters of an unknown conversion: the width, or three, clipped to the room. */
  function ErrorText(width: int, room: nat): seq<char>
  {
    Repeat(ErrorChar, Min(if width > 0 then width else 3, room))
  }

  /**
   * The text a known conversion writes for its argument; None when the
   * argument is of another kind, which C leaves undefined.
   */
  function ArgText(sp: Spec, c: char, a: Arg, room: nat): (r: Option<seq<char>>)
    requires room >= 1 && (sp.width == -1 || sp.width >= 1) && sp.prec >= -1
    ensures r.Some? ==> |r.value| <= room
  {
    if c == 's' then
      if a.Str? then Some(StrText(a.s, sp.fill, sp.width, sp.prec, room)) else None
    else if c == 'i' || c == 'd' then
      if a.Int? then NumberFields.IntShape(a.i, sp.width, sp.fill, room); Some(IntText(a.i, sp.width, sp.fill, room)) else None
    else if c == 'u' then
      if a.UInt? then NumberFields.UintShape(a.u, sp.width, sp.fill, room); Some(UintText(a.u, sp.width, sp.fill, room)) else None
    else if c == 'x' || c == 'X' then
      if a.UInt? then Some(HexText(a.u, sp.width, sp.fill, room)) else None
    else if c == 'c' then
      if a.Chr? then Some([a.c]) else None
    else None
  }

  /** The text t before what follows it, when what follows is defined. */
  function Then(t: seq<char>, rest: Option<seq<char>>): (r: Option<seq<char>>)
    ensures r.Some? <==> rest.Some?
    ensures r.Some? ==> r.value == t + rest.value
  {
    match rest
    case None => None
    case Some(u) => Some(t + u)
  }

  /**
   * What the loop writes from format index i on, with `room` characters
   * left before the one kept for the NUL: a plain character, a '%' for
   * `%%`, or a directive, then the rest; None when an argument is missing
   * or of the wrong kind. It never needs more than the room.
   */
  function Render(f: seq<char>, i: nat, args: seq<Arg>, room: nat): (r: Option<seq<char>>)
    ensures r.Some? ==> |r.value| <= room
    decreases |f| - i, 1
  {
    if i >= |f| || room == 0 then Some([])
    else if f[i] != '%' then Then([f[i]], Render(f, i + 1, args, room - 1))
    else if Parse.At(f, i + 1) == '%' then Then("%", Render(f, i + 2, args, room - 1))
    else Directive(f, ParseSpec(f, i + 1), args, room)
  }

  /**
   * A directive and what follows it: an unknown conversion writes its
   * error characters and ends the formatting; a known one writes the text
   * of the next argument, then the rest of the format with the arguments
   * after it.
   */
  function Directive(f: seq<char>, sp: Spec, args: seq<Arg>, room: nat): (r: Option<seq<char>>)
    requires sp.conv <= |f| && room >= 1 && (sp.width == -1 || sp.width >= 1) && sp.prec >= -1
    ensures r.Some? ==> |r.value| <= room
    decreases |f| - sp.conv, 0
  {
    var c := Parse.At(f, sp.conv);
    if !Known(c) then Some(ErrorText(sp.width, room))
    else if args == [] then None
    else match ArgText(sp, c, args[0], room)
      case None => None
      case Some(t) => Then(t, Render(f, sp.conv + 1, args[1..], room - |t|))
  }

  // ---------------------------------------------------------------------
  // The loop

  /** A buffer, a size of at least one and a format: what `libMU_vsnprintf` needs to write anything. */
  predicate Given(buf: array?<char>, size: u32, format: Option<seq<char>>)
  {
    buf != null && size >= 1 && format.Some?
  }

  /**
   * `libMU_vsnprintf`: nothing for a missing buffer, a size below one or
   * a missing format; otherwise the rendered text, at most size - 1
   * characters, then a NUL, and its length is returned.
   */
  method Vsnprintf(buf: array?<char>, size: u32, format: Option<seq<char>>, args: seq<Arg>) returns (n: nat)
    requires Given(buf, size, format) ==> size <= buf.Length && Render(format.value, 0, args, size - 1).Some?
    modifies buf
    ensures !Given(buf, size, format) ==> n == 0 && (buf != null ==> buf[..] == old(buf[..]))
    ensures Given(buf, size, format) ==>
              n < size && buf[..n] == Render(format.value, 0, args, size - 1).value && buf[n] == '\0'
    ensures Given(buf, size, format) ==> buf[n + 1..] == old(buf[n + 1..])
  {
    if !Given(buf, size, format) {
      return 0;
    }
    ghost var o := buf[..];
    n := Format(buf, format.value, args, size - 1);
    ghost var b := buf[..];
    buf[n] := '\0';
    Terminated(o, b, buf[..], n);
  }

  /** The NUL after the text changes nothing before it and nothing after it. */
  lemma Terminated(o: seq<char>, b: seq<char>, b': seq<char>, n: nat)
    requires n < |b| == |o| && b[n..] == o[n..] && b' == b[n := '\0']
    ensures b'[..n] == b[..n] && b'[n] == '\0' && b'[n + 1..] == o[n + 1..]
  {
    assert b[n + 1..] == b[n..][1..];
  }

  /** The formatting loop: on while the format lasts and there is room, left by a break after an unknown conversion. */
  method Format(buf: array<char>, f: seq<char>, args: seq<Arg>, end: nat) returns (pos: nat)
    requires end < buf.Length && Render(f, 0, args, end).Some?
    modifies buf
    ensures pos <= end && buf[..pos] == Render(f, 0, args, end).value
    ensures buf[pos..] == old(buf[pos..])
  {
    ghost var entry := buf[..];
    var i: nat, rest := 0, args;
    pos := 0;
    ghost var whole := Render(f, 0, args, end).value;
    ghost var todo := whole;
    while i < |f| && pos < end
      invariant pos <= end && i <= |f|
      invariant Render(f, i, rest, end - pos) == Some(todo) && whole == buf[..pos] + todo
      invariant buf.Length == |entry| && buf[pos..] == entry[pos..]
      decreases |f| - i
    {
      ghost var b := buf[..];
      var pos', i', rest', stop, after := OnePass(buf, f, i, rest, pos, end, todo);
      Extended(b, buf[..], entry, pos, pos', todo, after);
      pos, i, rest, todo := pos', i', rest', after;
      if stop {
        break;
      }
    }
    assert todo == [];
  }

  /**
   * A pass wrote `b'[pos..pos']` in front of what follows it: the text so
   * far grows by it, and nothing from pos' on changed.
   */
  lemma Extended(b: seq<char>, b': seq<char>, entry: seq<char>, pos: nat, pos': nat, later: seq<char>, after: seq<char>)
    requires pos <= pos' <= |b| == |b'| == |entry|
    requires b[pos..] == entry[pos..] && b'[..pos] == b[..pos] && b'[pos'..] == b[pos'..]
    requires later == b'[pos..pos'] + after
    ensures b[..pos] + later == b'[..pos'] + after
    ensures b'[pos'..] == entry[pos'..]
  {
    Join(b', 0, pos, pos');
    assert b'[..pos'] == b'[0..pos'] && b'[..pos] == b'[0..pos];
    assert b[pos'..] == b[pos..][pos' - pos..];
    assert entry[pos'..] == entry[pos..][pos' - pos..];
  }

  /** What follows a text that was written. */
  lemma Rest(t: seq<char>, rest: Option<seq<char>>, todo: seq<char>)
    requires Then(t, rest) == Some(todo)
    ensures rest == Some(todo[|t|..]) && todo == t + todo[|t|..]
  {
    assert (t + rest.value)[|t|..] == rest.value;
  }

  /**
   * One pass of the loop body, a plain character, `%%` or a directive:
   * of the text still to come it writes the front, and the rest is what
   * the format from i' on renders.
   */
  method OnePass(buf: array<char>, f: seq<char>, i: nat, args: seq<Arg>, pos: nat, end: nat, ghost todo: seq<char>)
    returns (pos': nat, i': nat, rest: seq<Arg>, stop: bool, ghost after: seq<char>)
    requires i < |f| && pos < end <= buf.Length && Render(f, i, args, end - pos) == Some(todo)
    modifies buf
    ensures pos <= pos' <= end && i < i'
    ensures todo == buf[pos..pos'] + after
    ensures stop ==> after == []
    ensures !stop ==> i' <= |f| && Render(f, i', rest, end - pos') == Some(after)
    ensures buf[..pos] == old(buf[..pos]) && buf[pos'..] == old(buf[pos'..])
  {
    if f[i] != '%' || Parse.At(f, i + 1) == '%' {
      pos', i', after := WriteLiteral(buf, f, i, args, pos, end, todo);
      rest, stop := args, false;
    } else {
      var sp := ReadSpec(f, i + 1);
      AtDirective(f, i, args, end - pos);
      pos', rest, stop, after := WriteConversion(buf, f, pos, end, sp, args, todo);
      i' := sp.conv + 1;
    }
  }

  /** At a '%' that does not start `%%`, the rendering is that of the directive. */
  lemma AtDirective(f: seq<char>, i: nat, args: seq<Arg>, room: nat)
    requires i < |f| && room >= 1 && f[i] == '%' && Parse.At(f, i + 1) != '%'
    ensures Render(f, i, args, room) == Directive(f, ParseSpec(f, i + 1), args, room)
  {
  }

  /** A plain character is copied; `%%` writes one '%'. */
  method WriteLiteral(buf: array<char>, f: seq<char>, i: nat, args: seq<Arg>, pos: nat, end: nat, ghost todo: seq<char>)
    returns (pos': nat, i': nat, ghost after: seq<char>)
    requires i < |f| && pos < end <= buf.Length && Render(f, i, args, end - pos) == Some(todo)
    requires f[i] != '%' || Parse.At(f, i + 1) == '%'
    modifies buf
    ensures pos' == pos + 1 && i < i' <= |f|
    ensures todo == buf[pos..pos'] + after && Render(f, i', args, end - pos') == Some(after)
    ensures buf[..pos] == old(buf[..pos]) && buf[pos'..] == old(buf[pos'..])
  {
    var c := f[i];
    i' := i + 1;
    if c == '%' {
      i' := i + 2;
    }
    buf[pos] := c;
    pos' := pos + 1;
    Rest([c], Render(f, i', args, end - pos'), todo);
    assert buf[pos..pos'] == [c];
    after := todo[1..];
  }

  /** The directive's fill, width and precision, read as the C loops read them. */
  method ReadSpec(f: seq<char>, j: nat) returns (sp: Spec)
    requires j <= |f|
    ensures sp == ParseSpec(f, j)
  {
    var c := Parse.At(f, j);
    var fill := '\0';
    var k := j;
    if c == ' ' || c == '0' {
      fill := c;
      k := SkipRun(f, j + 1, c);
    }
    var width: int := -1;
    if '1' <= Parse.At(f, k) <= '9' {
      width, k := ReadNumber(f, k);
    }
    var prec: int := -1;
    if Parse.At(f, k) == '.' {
      prec, k := ReadNumber(f, k + 1);
    }
    sp := Spec(fill, width, prec, k);
  }

  /** Skips the run of fill characters. */
  method SkipRun(f: seq<char>, j: nat, c: char) returns (k: nat)
    requires j <= |f| && c != '\0'
    ensures k == RunEnd(f, j, c)
  {
    k := j;
    while Parse.At(f, k) == c
      invariant j <= k <= |f| && RunEnd(f, k, c) == RunEnd(f, j, c)
      decreases |f| - k
    {
      k := k + 1;
    }
  }

  /** The digits from k on, accumulated ten times the value so far plus the next digit. */
  method ReadNumber(f: seq<char>, k: nat) returns (v: nat, e: nat)
    requires k <= |f|
    ensures v == Parse.Magnitude(f, k) && e == Parse.DigitsEnd(f, k)
  {
    v, e := 0, k;
    while IsDigit(Parse.At(f, e))
      invariant k <= e <= |f| && Parse.DigitsEnd(f, e) == Parse.DigitsEnd(f, k)
      invariant forall t :: k <= t < e ==> IsDigit(f[t])
      invariant AllDigits(f[k..e]) && v == Value(f[k..e])
      decreases |f| - e
    {
      assert f[k..e + 1][..e - k] == f[k..e];
      v, e := v * 10 + DigitValue(f[e]), e + 1;
    }
    assert forall t :: 0 <= t < e - k ==> IsDigit(f[k..Parse.DigitsEnd(f, k)][t]);
  }

  /** Every character a decimal digit. */
  predicate AllDigits(s: seq<char>)
  {
    forall t :: 0 <= t < |s| ==> IsDigit(s[t])
  }

  /** The `switch` on the conversion character. */
  method WriteConversion(buf: array<char>, f: seq<char>, pos: nat, end: nat, sp: Spec, args: seq<Arg>, ghost todo: seq<char>)
    returns (pos': nat, rest: seq<Arg>, stop: bool, ghost after: seq<char>)
    requires sp.conv <= |f| && (sp.width == -1 || sp.width >= 1) && sp.prec >= -1
    requires pos < end <= buf.Length && Directive(f, sp, args, end - pos) == Some(todo)
    modifies buf
    ensures pos <= pos' <= end
    ensures todo == buf[pos..pos'] + after
    ensures stop ==> after == []
    ensures !stop ==> sp.conv < |f| && Render(f, sp.conv + 1, rest, end - pos') == Some(after)
    ensures buf[..pos] == old(buf[..pos]) && buf[pos'..] == old(buf[pos'..])
  {
    var c := Parse.At(f, sp.conv);
    if !Known(c) {
      pos' := WriteError(buf, pos, end, sp.width);
      assert todo == buf[pos..pos'] + [];
      return pos', args, true, [];
    }
    ghost var t := ArgText(sp, c, args[0], end - pos).value;
    pos' := WriteArg(buf, pos, end, sp, c, args[0]);
    rest, stop := args[1..], false;
    Rest(t, Render(f, sp.conv + 1, rest, end - pos'), todo);
    after := todo[|t|..];
  }

  /** The default case: the width, or three, error characters, clipped to the room. */
  method WriteError(buf: array<char>, pos: nat, end: nat, width: int) returns (pos': nat)
    requires pos < end <= buf.Length
    modifies buf
    ensures pos <= pos' <= end && buf[pos..pos'] == ErrorText(width, end - pos)
    ensures buf[..pos] == old(buf[..pos]) && buf[pos'..] == old(buf[pos'..])
  {
    var k := if width > 0 then width else 3;
    if pos + k > end {
      k := end - pos;
    }
    FillChars(buf, pos, k, ErrorChar);
    pos' := pos + k;
  }

  /** A known conversion with its argument. */
  method WriteArg(buf: array<char>, pos: nat, end: nat, sp: Spec, c: char, a: Arg) returns (pos': nat)
    requires pos < end <= buf.Length && (sp.width == -1 || sp.width >= 1) && sp.prec >= -1
    requires ArgText(sp, c, a, end - pos).Some?
    modifies buf
    ensures pos <= pos' <= end && buf[pos..pos'] == ArgText(sp, c, a, end - pos).value
    ensures buf[..pos] == old(buf[..pos]) && buf[pos'..] == old(buf[pos'..])
  {
    if c == 's' {
      pos' := WriteStr(buf, pos, end, a.s, sp.fill, sp.width, sp.prec);
    } else if c == 'c' {
      buf[pos] := a.c;
      pos' := pos + 1;
      assert buf[pos..pos'] == [a.c];
    } else {
      pos' := WriteNumber(buf, pos, end, sp.width, sp.fill, c, a);
    }
  }

  /** `%i`, `%d`, `%u`, `%x` and `%X`: the number formatters, given the room left. */
  method WriteNumber(buf: array<char>, pos: nat, end: nat, width: int, fill: char, c: char, a: Arg) returns (pos': nat)
    requires pos < end <= buf.Length && width != 0
    requires ((c == 'i' || c == 'd') && a.Int?) || ((c == 'u' || c == 'x' || c == 'X') && a.UInt?)
    modifies buf
    ensures pos <= pos' <= end
    ensures buf[pos..pos'] == if c == 'u' then UintText(a.u, width, fill, end - pos)
                              else if a.Int? then IntText(a.i, width, fill, end - pos)
                              else HexText(a.u, width, fill, end - pos)
    ensures buf[..pos] == old(buf[..pos]) && buf[pos'..] == old(buf[pos'..])
  {
    var room := end - pos;
    if a.Int? {
      pos' := IntToStr(buf, pos, room, a.i, width, fill);
    } else if c == 'u' {
      pos' := UintToStr(buf, pos, room, a.u, width, fill);
    } else {
      pos' := UintToHex(buf, pos, room, a.u, width, fill);
    }
  }

  /** The `%s` conversion: its counts as the C code works them out, then the writes. */
  method WriteStr(buf: array<char>, pos: nat, end: nat, s: seq<char>, fill: char, width: int, prec: int) returns (pos': nat)
    requires pos < end <= buf.Length
    modifies buf
    ensures pos <= pos' <= end && buf[pos..pos'] == StrText(s, fill, width, prec, end - pos)
    ensures buf[..pos] == old(buf[..pos]) && buf[pos'..] == old(buf[pos'..])
  {
    var len := Shown(s, width, prec);
    var lead := 0;
    if fill != '\0' && width > len {
      lead := width - len;
      if pos + lead > end {
        lead := end - pos;
      }
    }
    if pos + lead + len >= end {
      len := end - pos - lead;
    }
    var trail := 0;
    if fill == '\0' && width > len {
      trail := width - len;
      if pos + lead + len + trail > end {
        trail := end - pos - lead - len;
      }
    }
    assert (lead, len, trail) == StrLayout(s, fill, width, prec, end - pos);
    pos' := PutStr(buf, pos, fill, lead, s, len, trail);
  }

  /** `memset` of the fill, `memcpy` of the string, `memset` of the spaces. */
  method PutStr(buf: array<char>, pos: nat, fill: char, lead: nat, s: seq<char>, len: nat, trail: nat) returns (pos': nat)
    requires pos + lead + len + trail <= buf.Length && len <= |s|
    modifies buf
    ensures pos' == pos + lead + len + trail && buf[pos..pos'] == Repeat(fill, lead) + s[..len] + Repeat(' ', trail)
    ensures buf[..pos] == old(buf[..pos]) && buf[pos'..] == old(buf[pos'..])
  {
    ghost var b0 := buf[..];
    FillChars(buf, pos, lead, fill);
    ghost var b1 := buf[..];
    var q := pos + lead;
    CopyChars(buf, q, s, len);
    ghost var b2 := buf[..];
    var r := q + len;
    FillChars(buf, r, trail, ' ');
    pos' := r + trail;
    Pieces(b0, b1, b2, buf[..], pos, q, r, pos', Repeat(fill, lead), s[..len], Repeat(' ', trail));
  }

  /** Three writes one after the other: the field holds the three texts, and nothing outside it changed. */
  lemma Pieces(b0: seq<char>, b1: seq<char>, b2: seq<char>, b3: seq<char>, p: nat, q: nat, r: nat, e: nat,
               t1: seq<char>, t2: seq<char>, t3: seq<char>)
    requires p <= q <= r <= e <= |b0| == |b1| == |b2| == |b3|
    requires b1[..p] == b0[..p] && b1[p..q] == t1 && b1[q..] == b0[q..]
    requires b2[..q] == b1[..q] && b2[q..r] == t2 && b2[r..] == b1[r..]
    requires b3[..r] == b2[..r] && b3[r..e] == t3 && b3[e..] == b2[e..]
    ensures b3[p..e] == t1 + t2 + t3
    ensures b3[..p] == b0[..p] && b3[e..] == b0[e..]
  {
    SamePrefix(b2, b1, p, q);
    SamePrefix(b3, b2, p, r);
    SamePrefix(b3, b2, q, r);
    SamePrefix(b2, b1, p, p);
    SamePrefix(b3, b2, p, p);
    Join(b3, p, q, r);
    Join(b3, p, r, e);
    SameSuffix(b1, b0, q, e);
    SameSuffix(b2, b1, r, e);
  }

  /** `memset`: k copies of c from pos on. */
  method FillChars(buf: array<char>, pos: nat, k: nat, c: char)
    requires pos + k <= buf.Length
    modifies buf
    ensures buf[pos..pos + k] == Repeat(c, k)
    ensures buf[..pos] == old(buf[..pos]) && buf[pos + k..] == old(buf[pos + k..])
  {
    var j := 0;
    while j < k
      invariant j <= k
      invariant buf[pos..pos + j] == Repeat(c, j)
      invariant buf[..pos] == old(buf[..pos]) && buf[pos + j..] == old(buf[pos + j..])
    {
      ghost var b := buf[..];
      buf[pos + j] := c;
      Append(old(buf[..]), b, buf[..], pos, pos + j, c);
      j := j + 1;
    }
  }

  /** `memcpy`: the first k characters of s from pos on. */
  method CopyChars(buf: array<char>, pos: nat, s: seq<char>, k: nat)
    requires pos + k <= buf.Length && k <= |s|
    modifies buf
    ensures buf[pos..pos + k] == s[..k]
    ensures buf[..pos] == old(buf[..pos]) && buf[pos + k..] == old(buf[pos + k..])
  {
    var j := 0;
    while j < k
      invariant j <= k
      invariant buf[pos..pos + j] == s[..j]
      invariant buf[..pos] == old(buf[..pos]) && buf[pos + j..] == old(buf[pos + j..])
    {
      ghost var b := buf[..];
      buf[pos + j] := s[j];
      Append(old(buf[..]), b, buf[..], pos, pos + j, s[j]);
      assert s[..j + 1] == s[..j] + [s[j]];
      j := j + 1;
    }
  }

  // ---------------------------------------------------------------------
  // Properties

  /** A run of digits that starts with 1-9 is worth at least one. */
  lemma LeadingValue(f: seq<char>, k: nat)
    requires k < |f| && '1' <= f[k] <= '9'
    ensures Parse.Magnitude(f, k) >= 1
  {
    var e := Parse.DigitsEnd(f, k);
    assert e > k;
    var s := f[k..e];
    assert forall t :: 0 <= t < |s| ==> IsDigit(s[t]);
    AtLeastFirst(s);
  }

  /** A run of digits is worth at least its first digit. */
  lemma {:induction false} AtLeastFirst(s: seq<char>)
    requires s != [] && forall t :: 0 <= t < |s| ==> IsDigit(s[t])
    ensures Value(s) >= DigitValue(s[0])
    decreases |s|
  {
    if |s| > 1 {
      var front := s[..|s| - 1];
      assert front[0] == s[0];
      AtLeastFirst(front);
    }
  }

  /**
   * `%Ns` with N > 0 writes exactly N characters, clipped to the room:
   * with a fill, the fill before the shown part of the string; without,
   * spaces after it.
   */
  lemma StrWidth(s: seq<char>, fill: char, width: int, prec: int, room: nat)
    requires width > 0 && prec >= -1
    ensures |StrText(s, fill, width, prec, room)| == Min(width, room)
    ensures width <= room && fill != '\0' ==>
              StrText(s, fill, width, prec, room) == Repeat(fill, width - Shown(s, width, prec)) + s[..Shown(s, width, prec)]
    ensures width <= room && fill == '\0' ==>
              StrText(s, fill, width, prec, room) == s[..Shown(s, width, prec)] + Repeat(' ', width - Shown(s, width, prec))
  {
  }

  /** A format without directives: every '%' doubled. */
  predicate Plain(f: seq<char>, i: nat)
    decreases |f| - i
  {
    i >= |f| || (if f[i] != '%' then Plain(f, i + 1) else Parse.At(f, i + 1) == '%' && Plain(f, i + 2))
  }

  /** The text of a plain format: its characters, with `%%` read as '%'. */
  function Unescaped(f: seq<char>, i: nat): seq<char>
    requires Plain(f, i)
    decreases |f| - i
  {
    if i >= |f| then []
    else if f[i] != '%' then [f[i]] + Unescaped(f, i + 1)
    else "%" + Unescaped(f, i + 2)
  }

  /** A plain format is copied with `%%` read as '%', as far as the room goes, and takes no argument. */
  lemma {:induction false} PlainText(f: seq<char>, i: nat, args: seq<Arg>, room: nat)
    requires Plain(f, i)
    ensures Render(f, i, args, room) == Some(Unescaped(f, i)[..Min(|Unescaped(f, i)|, room)])
    decreases |f| - i
  {
    if i < |f| && room > 0 {
      if f[i] != '%' {
        PlainText(f, i + 1, args, room - 1);
      } else {
        PlainText(f, i + 2, args, room - 1);
      }
      var u := Unescaped(f, i);
      assert u[..Min(|u|, room)] == [u[0]] + u[1..][..Min(|u| - 1, room - 1)];
    }
  }

  /** An unknown conversion writes the width (or three) error characters, clipped, and nothing after them. */
  lemma UnknownStops(f: seq<char>, i: nat, args: seq<Arg>, room: nat)
    requires i < |f| && f[i] == '%' && Parse.At(f, i + 1) != '%' && room > 0
    requires !Known(Parse.At(f, ParseSpec(f, i + 1).conv))
    ensures Render(f, i, args, room) == Some(ErrorText(ParseSpec(f, i + 1).width, room))
  {
  }

  /** A format that is one directive without fill, width or precision writes what its conversion writes for the argument. */
  lemma Lone(c: char, a: Arg, room: nat)
    requires room >= 1 && Known(c)
    ensures ParseSpec(['%', c], 1) == Spec('\0', -1, -1, 1)
    ensures Render(['%', c], 0, [a], room) == ArgText(Spec('\0', -1, -1, 1), c, a, room)
  {
    var f := ['%', c];
    assert Parse.At(f, 1) == c && Parse.At(f, 2) == '\0';
    assert ParseSpec(f, 1) == Spec('\0', -1, -1, 1);
    var t := ArgText(Spec('\0', -1, -1, 1), c, a, room);
    assert Render(f, 0, [a], room) == Directive(f, Spec('\0', -1, -1, 1), [a], room);
    if t.Some? {
      assert [a][1..] == [];
      assert Render(f, 2, [], room - |t.value|) == Some([]);
      assert t.value + [] == t.value;
    }
  }

  /** `%d` with room for eleven characters writes the number so that `libMU_atoi` reads it back. */
  lemma IntReadsBack(x: i32, room: nat)
    requires room >= 11
    ensures Render("%d", 0, [Int(x)], room).Some?
    ensures Parse.Signed(Render("%d", 0, [Int(x)], room).value) == x
  {
    Lone('d', Int(x), room);
    assert ArgText(Spec('\0', -1, -1, 1), 'd', Int(x), room) == Some(IntText(x, -1, '\0', room));
    PowTen();
    NumeralLength(Abs(x), 10, 10);
    NumberFields.IntRoundTrip(x, -1, '\0', room);
  }

  /** `%u` with room for ten characters writes the number so that `libMU_atoul` reads it back. */
  lemma UintReadsBack(x: u32, room: nat)
    requires room >= 10
    ensures Render("%u", 0, [UInt(x)], room).Some?
    ensures Parse.Unsigned(Render("%u", 0, [UInt(x)], room).value) == x
  {
    Lone('u', UInt(x), room);
    assert ArgText(Spec('\0', -1, -1, 1), 'u', UInt(x), room) == Some(UintText(x, -1, '\0', room));
    PowTen();
    NumeralLength(x, 10, 10);
    NumberFields.UintRoundTrip(x, -1, '\0', room);
  }
}
