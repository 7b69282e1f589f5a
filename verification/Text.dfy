/** The text forms the chunk index is written in: lower-case hexadecimal, decimal, fields and lines. */
module Text {
  import opened Bytes
  import Collections

  function FirstIndex(t: string, c: char): (k: nat)
    ensures k <= |t| && c !in t[..k]
    ensures k < |t| ==> t[k] == c
  {
    if |t| == 0 || t[0] == c then 0 else 1 + FirstIndex(t[1..], c)
  }

  /** Where a delimiter-free head followed by the delimiter ends. */
  lemma {:induction false} FirstIndexAfter(head: string, c: char, rest: string)
    requires c !in head
    ensures FirstIndex(head + [c] + rest, c) == |head|
  {
    if |head| > 0 {
      FirstIndexAfter(head[1..], c, rest);
      assert (head + [c] + rest)[1..] == head[1..] + [c] + rest;
    }
  }

  lemma NotFound(t: string, c: char)
    requires c !in t
    ensures FirstIndex(t, c) == |t|
  {
  }

  // ----- fields of a line -----

  /** `line.split(c)`: always at least one part. */
  function Split(t: string, c: char): (parts: seq<string>)
    ensures |parts| > 0
    decreases |t|
  {
    var k := FirstIndex(t, c);
    if k == |t| then [t] else [t[..k]] + Split(t[k + 1..], c)
  }

  lemma SplitStep(head: string, c: char, rest: string)
    requires c !in head
    ensures Split(head + [c] + rest, c) == [head] + Split(rest, c)
  {
    FirstIndexAfter(head, c, rest);
    var t := head + [c] + rest;
    assert t[..|head|] == head && t[|head| + 1..] == rest;
  }

  lemma SplitOne(t: string, c: char)
    requires c !in t
    ensures Split(t, c) == [t]
  {
    NotFound(t, c);
  }

  /** A delimiter joins two texts into one with the parts of both. */
  lemma {:induction false} SplitCount(a: string, c: char, b: string)
    ensures |Split(a + [c] + b, c)| == |Split(a, c)| + |Split(b, c)|
    ensures c in a ==> |Split(a, c)| > 1
    decreases |a|
  {
    var k := FirstIndex(a, c);
    if k == |a| {
      assert a[..k] == a;
      SplitStep(a, c, b);
    } else {
      var head, rest := a[..k], a[k + 1..];
      SplitCount(rest, c, b);
      assert a + [c] + b == head + [c] + (rest + [c] + b);
      SplitStep(head, c, rest + [c] + b);
    }
  }

  lemma Regroup(head: string, mark: string, rest: string, b: string)
    ensures head + mark + rest + mark + b == head + mark + (rest + mark + b)
  {
  }

  lemma {:induction false} SplitAppend(a: string, c: char, b: string)
    ensures Split(a + [c] + b, c) == Split(a, c) + Split(b, c)
    decreases |a|
  {
    var k := FirstIndex(a, c);
    if k == |a| {
      assert a[..k] == a;
      SplitOne(a, c);
      SplitStep(a, c, b);
    } else {
      var head, rest := a[..k], a[k + 1..];
      SplitAppend(rest, c, b);
      Regroup(head, [c], rest, b);
      assert a == head + [c] + rest;
      SplitStep(head, c, rest);
      SplitStep(head, c, rest + [c] + b);
      Collections.ConcatAssoc([head], Split(rest, c), Split(b, c));
    }
  }

  /** There is one part more than there are delimiters. */
  lemma {:induction false} SplitLength(t: string, c: char)
    ensures |Split(t, c)| == multiset(t)[c] + 1
    decreases |t|
  {
    var k := FirstIndex(t, c);
    if k < |t| {
      SplitLength(t[k + 1..], c);
      assert t == t[..k] + [c] + t[k + 1..];
    }
  }

  /** No part contains the delimiter, nor any character the text did not have. */
  lemma {:induction false} SplitParts(t: string, c: char)
    ensures forall p | p in Split(t, c) :: c !in p && forall x | x in p :: x in t
    decreases |t|
  {
    var k := FirstIndex(t, c);
    if k < |t| {
      SplitParts(t[k + 1..], c);
    } else {
      assert t[..k] == t;
    }
  }

  // ----- paths -----

  /** A path as its components: empty ones do not count, and neither does a dot except at the start of a relative path.
      Whether the path is absolute counts. */
  function Components(path: string): (bool, seq<string>) {
    Assembled(Rooted(path), Split(path, '/'))
  }

  predicate Rooted(path: string) {
    |path| > 0 && path[0] == '/'
  }

  function Assembled(rooted: bool, parts: seq<string>): (bool, seq<string>)
    requires |parts| > 0
  {
    if !rooted && parts[0] == "." then (false, ["."] + Normal(parts[1..])) else (rooted, Normal(parts))
  }

  function Normal(parts: seq<string>): seq<string> {
    if |parts| == 0 then []
    else (if parts[0] == "" || parts[0] == "." then [] else [parts[0]]) + Normal(parts[1..])
  }

  /** Paths are equal when their components are. */
  predicate SamePath(a: string, b: string) {
    Components(a) == Components(b)
  }

  /** A name that a path may end in, other than a dot. */
  predicate PlainName(name: string) {
    name != "" && name != "." && '/' !in name
  }

  lemma {:induction false} NormalAppend(a: seq<string>, b: seq<string>)
    ensures Normal(a + b) == Normal(a) + Normal(b)
  {
    if |a| == 0 {
      assert a + b == b;
    } else {
      NormalAppend(a[1..], b);
      assert (a + b)[0] == a[0] && (a + b)[1..] == a[1..] + b;
      Collections.ConcatAssoc(if a[0] == "" || a[0] == "." then [] else [a[0]], Normal(a[1..]), Normal(b));
    }
  }

  lemma NormalOne(part: string)
    ensures Normal([part]) == if part == "" || part == "." then [] else [part]
  {
    assert [part][1..] == [];
  }

  lemma AssembledAppend(rooted: bool, a: seq<string>, b: seq<string>)
    requires |a| > 0
    ensures Assembled(rooted, a + b) == (Assembled(rooted, a).0, Assembled(rooted, a).1 + Normal(b))
  {
    NormalAppend(a, b);
    NormalAppend(a[1..], b);
    assert (a + b)[0] == a[0] && (a + b)[1..] == a[1..] + b;
    Collections.ConcatAssoc(["."], Normal(a[1..]), Normal(b));
  }

  /** What comes behind a slash adds its own components: the start of a path alone decides whether it is absolute and
      whether it has a leading dot. */
  lemma ComponentsAppend(p: string, s: string)
    ensures var start := if p == "" then (true, []) else Components(p);
            Components(p + "/" + s) == (start.0, start.1 + Normal(Split(s, '/')))
  {
    SplitAppend(p, '/', s);
    var t := p + ['/'] + s;
    assert p + "/" + s == t && t[0] == (if p == "" then '/' else p[0]);
    AssembledAppend(Rooted(t), Split(p, '/'), Split(s, '/'));
    if p == "" {
      SplitOne("", '/');
      NormalOne("");
    }
  }

  lemma PlainComponents(name: string)
    requires PlainName(name)
    ensures Components(name) == (false, [name]) && Normal(Split(name, '/')) == [name]
  {
    SplitOne(name, '/');
    NormalOne(name);
  }

  /** Plain names are the same path exactly when they are equal. */
  lemma SamePlainIff(a: string, b: string)
    requires PlainName(a) && PlainName(b)
    ensures SamePath(a, b) <==> a == b
  {
    PlainComponents(a);
    PlainComponents(b);
    assert SamePath(a, b) ==> [a][0] == [b][0];
  }

  /** Files in directories are the same path exactly when the directories are and the names are equal. */
  lemma SameInsideIff(p: string, a: string, q: string, b: string)
    requires p != "" && q != "" && PlainName(a) && PlainName(b)
    ensures SamePath(p + "/" + a, q + "/" + b) <==> SamePath(p, q) && a == b
  {
    ComponentsAppend(p, a);
    ComponentsAppend(q, b);
    PlainComponents(a);
    PlainComponents(b);
    var (x, y) := (Components(p).1, Components(q).1);
    if x + [a] == y + [b] {
      assert (x + [a])[|x|] == (y + [b])[|y|];
      assert (x + [a])[..|x|] == x && (y + [b])[..|y|] == y;
    }
  }

  lemma NormalSkips(first: string, s: string)
    requires first == "" || first == "."
    ensures Normal(Split(first + "/" + s, '/')) == Normal(Split(s, '/'))
  {
    SplitAppend(first, '/', s);
    SplitOne(first, '/');
    NormalOne(first);
    NormalAppend([first], Split(s, '/'));
    assert first + "/" + s == first + ['/'] + s;
  }

  /** A repeated slash, a slash at the end, and a dot inside or at the end make no difference. */
  lemma SlashesAndDots(p: string, first: string, s: string)
    requires first == "" || first == "."
    ensures SamePath(p + "/" + (first + "/" + s), p + "/" + s)
    ensures p != "" ==> SamePath(p + "/" + first, p)
  {
    ComponentsAppend(p, s);
    ComponentsAppend(p, first + "/" + s);
    NormalSkips(first, s);
    ComponentsAppend(p, first);
    SplitOne(first, '/');
    NormalOne(first);
    assert Components(p).1 + [] == Components(p).1;
  }

  /** A slash at the start does, and so does a dot there. */
  lemma StartMatters(name: string)
    requires PlainName(name)
    ensures !SamePath("" + "/" + name, name) && !SamePath("." + "/" + name, name)
  {
    ComponentsAppend("", name);
    ComponentsAppend(".", name);
    PlainComponents(name);
    SplitOne(".", '/');
    assert Components(".").1 == ["."] + Normal([]) == ["."];
    assert |["."] + [name]| != |[name]|;
  }

  // ----- lines of a file -----

  const NEWLINE: char := '\n'
  const RETURN: char := '\r'

  function WithoutReturn(line: string): string {
    if |line| > 0 && line[|line| - 1] == RETURN then line[..|line| - 1] else line
  }

  /** `BufRead::lines`: the line feed, and a carriage return before it, are dropped; nothing follows the
      last line feed. */
  function Lines(t: string): seq<string>
    decreases |t|
  {
    if |t| == 0 then []
    else
      var k := FirstIndex(t, NEWLINE);
      if k == |t| then [t] else [WithoutReturn(t[..k])] + Lines(t[k + 1..])
  }

  lemma LinesStep(line: string, rest: string)
    requires NEWLINE !in line && WithoutReturn(line) == line
    ensures Lines(line + [NEWLINE] + rest) == [line] + Lines(rest)
  {
    FirstIndexAfter(line, NEWLINE, rest);
    var t := line + [NEWLINE] + rest;
    assert t[..|line|] == line && t[|line| + 1..] == rest;
  }

  /** A carriage return before the line feed is dropped with it. */
  lemma ReturnIsDropped(line: string, rest: string)
    requires NEWLINE !in line
    ensures Lines(line + [RETURN] + [NEWLINE] + rest) == [line] + Lines(rest)
  {
    var t := line + [RETURN];
    FirstIndexAfter(t, NEWLINE, rest);
    assert (t + [NEWLINE] + rest)[..|t|] == t && (t + [NEWLINE] + rest)[|t| + 1..] == rest;
    assert t[..|t| - 1] == line;
  }

  lemma {:induction false} LinesHaveNoBreak(t: string)
    ensures forall line | line in Lines(t) :: NEWLINE !in line
    decreases |t|
  {
    if |t| > 0 {
      var k := FirstIndex(t, NEWLINE);
      if k < |t| {
        LinesHaveNoBreak(t[k + 1..]);
        assert forall x | x in WithoutReturn(t[..k]) :: x in t[..k];
      } else {
        assert t[..k] == t;
      }
    }
  }

  // ----- decimal numbers -----

  function DigitOf(c: char): Option<nat> {
    if '0' <= c <= '9' then Some(c as int - '0' as int) else None
  }

  function DigitChar(d: nat): (c: char)
    requires d < 10
    ensures DigitOf(c) == Some(d)
  {
    ('0' as int + d) as char
  }

  /** `format!("{}", n)`. */
  function Decimal(n: nat): (s: string)
    ensures |s| > 0 && forall c | c in s :: DigitOf(c).Some?
  {
    if n < 10 then [DigitChar(n)] else Decimal(n / 10) + [DigitChar(n % 10)]
  }

  /** The value of a string of digits; `None` if some character is not one. */
  function DigitsValue(s: string): Option<nat> {
    if |s| == 0 then Some(0)
    else
      var (high, low) := (DigitsValue(s[..|s| - 1]), DigitOf(s[|s| - 1]));
      if high.Some? && low.Some? then Some(high.value * 10 + low.value) else None
  }

  /** `parse` to an unsigned integer below `limit`: one leading plus sign is accepted, at least one digit
      is needed, and a value too large for the type is an error. */
  function ParseUnsigned(s: string, limit: nat): Option<nat> {
    var digits := if |s| > 0 && s[0] == '+' then s[1..] else s;
    if |digits| == 0 then None
    else
      var value := DigitsValue(digits);
      if value.Some? && value.value < limit then value else None
  }

  predicate DigitsOnly(s: string) {
    forall c | c in s :: '0' <= c <= '9'
  }

  lemma {:induction false} DigitsValueIff(s: string)
    ensures DigitsValue(s).Some? <==> DigitsOnly(s)
  {
    if |s| > 0 {
      var front, last := s[..|s| - 1], s[|s| - 1];
      DigitsValueIff(front);
      assert s == front + [last];
      if DigitsOnly(s) {
        assert last in s && forall c | c in front :: c in s;
      }
    }
  }

  /** A number is read exactly if there are digits and nothing else behind an optional plus sign, and their value
      fits. */
  lemma UnsignedIff(s: string, limit: nat)
    ensures var digits := if s != "" && s[0] == '+' then s[1..] else s;
            && (ParseUnsigned(s, limit).Some? <==>
                  digits != "" && DigitsOnly(digits) && DigitsValue(digits).Some? && DigitsValue(digits).value < limit)
            && (ParseUnsigned(s, limit).Some? ==> ParseUnsigned(s, limit) == DigitsValue(digits))
  {
    DigitsValueIff(if s != "" && s[0] == '+' then s[1..] else s);
  }

  lemma {:induction false} DecimalValue(n: nat)
    ensures DigitsValue(Decimal(n)) == Some(n)
  {
    if n < 10 {
      assert [DigitChar(n)][..0] == [];
    } else {
      DecimalValue(n / 10);
      assert Decimal(n)[..|Decimal(n)| - 1] == Decimal(n / 10);
    }
  }

  /** A printed number is read back, or refused if the type cannot hold it. */
  lemma DecimalRoundTrip(n: nat, limit: nat)
    ensures ParseUnsigned(Decimal(n), limit) == if n < limit then Some(n) else None
  {
    DecimalValue(n);
    assert Decimal(n)[0] in Decimal(n);
  }

  lemma SampleDecimals()
    ensures Decimal(1024) == "1024" && Decimal(20) == "20"
  {
    assert Decimal(1) == "1" && Decimal(2) == "2";
    assert Decimal(10) == Decimal(1) + "0";
    assert Decimal(102) == Decimal(10) + "2";
    assert Decimal(1024) == Decimal(102) + "4";
    assert Decimal(20) == Decimal(2) + "0";
  }

  // ----- hexadecimal bytes -----

  function HexChar(d: nat): char
    requires d < 16
  {
    if d < 10 then DigitChar(d) else ('a' as int + d - 10) as char
  }

  function HexDigitOf(c: char): (d: Option<nat>)
    ensures d.Some? ==> d.value < 16
  {
    if '0' <= c <= '9' then Some(c as int - '0' as int)
    else if 'a' <= c <= 'f' then Some(c as int - 'a' as int + 10)
    else if 'A' <= c <= 'F' then Some(c as int - 'A' as int + 10)
    else None
  }

  /** `hex::encode`. */
  function Hex(bs: seq<byte>): (s: string)
    ensures |s| == 2 * |bs| && forall c | c in s :: HexDigitOf(c).Some?
  {
    if |bs| == 0 then [] else [HexChar(bs[0] / 16), HexChar(bs[0] % 16)] + Hex(bs[1..])
  }

  /** `hex::decode`: either case is accepted; an odd length or another character is an error. */
  function Unhex(s: string): Option<seq<byte>> {
    if |s| == 0 then Some([])
    else if |s| == 1 then None
    else
      var (high, low, rest) := (HexDigitOf(s[0]), HexDigitOf(s[1]), Unhex(s[2..]));
      if high.Some? && low.Some? && rest.Some? then Some([high.value * 16 + low.value] + rest.value) else None
  }

  lemma SampleHex()
    ensures Hex([0xab, 0x0c]) == "ab0c"
  {
    var last: seq<byte> := [0x0c];
    assert last[1..] == [];
    assert Hex(last) == "0c";
    assert [0xab, 0x0c][1..] == last;
  }

  /** Digits and the letters up to `f`, in either case, and an even number of them. */
  predicate HexText(s: string) {
    |s| % 2 == 0 && forall i: nat | i < |s| :: '0' <= s[i] <= '9' || 'a' <= s[i] <= 'f' || 'A' <= s[i] <= 'F'
  }

  lemma HexTextCons(a: char, b: char, rest: string)
    ensures HexText([a, b] + rest) <==> HexDigitOf(a).Some? && HexDigitOf(b).Some? && HexText(rest)
  {
    var s := [a, b] + rest;
    assert s[0] == a && s[1] == b;
    assert forall i: nat | i < |rest| :: s[i + 2] == rest[i];
    assert forall i: nat | 2 <= i < |s| :: s[i] == rest[i - 2];
  }

  lemma {:induction false} UnhexIff(s: string)
    ensures Unhex(s).Some? <==> HexText(s)
  {
    if |s| > 1 {
      UnhexIff(s[2..]);
      HexTextCons(s[0], s[1], s[2..]);
      assert s == [s[0], s[1]] + s[2..];
    }
  }

  lemma HexDigitRoundTrip(d: nat)
    requires d < 16
    ensures HexDigitOf(HexChar(d)) == Some(d)
  {
  }

  lemma {:induction false} HexRoundTrip(bs: seq<byte>)
    ensures Unhex(Hex(bs)) == Some(bs)
  {
    if |bs| > 0 {
      HexRoundTrip(bs[1..]);
      HexDigitRoundTrip(bs[0] / 16);
      HexDigitRoundTrip(bs[0] % 16);
      assert Hex(bs)[2..] == Hex(bs[1..]);
      assert [bs[0]] + bs[1..] == bs;
    }
  }
}
