/** The handful of QString operations the connectors rely on, over
    `string` (a sequence of UTF-16 code units is modelled as seq<char>). */
module Text {
  import opened Wrappers
  import opened Seqs

  /** ILWIS's undefined string, sUNDEF. */
  const SUndef: string := "?"

  predicate StartsWith(s: string, prefix: string) {
    |prefix| <= |s| && s[..|prefix|] == prefix
  }

  predicate EndsWith(s: string, suffix: string) {
    |suffix| <= |s| && s[|s| - |suffix|..] == suffix
  }

  predicate OccursAt(s: string, sub: string, i: nat) {
    i + |sub| <= |s| && s[i..i + |sub|] == sub
  }

  /** QString::indexOf: the first position where `sub` occurs, or -1. */
  function IndexOf(s: string, sub: string, from: nat := 0): (r: int)
    requires from <= |s|
    ensures r == -1 || (from <= r && OccursAt(s, sub, r))
    ensures r == -1 ==> forall i :: from <= i <= |s| ==> !OccursAt(s, sub, i)
    ensures r != -1 ==> forall i :: from <= i < r ==> !OccursAt(s, sub, i)
    decreases |s| - from
  {
    if OccursAt(s, sub, from) then from
    else if from == |s| then -1
    else IndexOf(s, sub, from + 1)
  }

  /** No character before the first occurrence of a one-character
      string is that character. */
  lemma CharBeforeIndex(s: string, c: char, k: nat)
    requires k <= |s| && forall i :: 0 <= i < k ==> !OccursAt(s, [c], i)
    ensures c !in s[..k]
  {
    forall i | 0 <= i < k
      ensures s[i] != c
    {
      assert !OccursAt(s, [c], i);
      assert s[i..i + 1] == [s[i]];
    }
  }

  /** A prefix holds no character its string does not hold. */
  lemma PrefixKeepsAbsent(s: string, c: char, k: nat)
    requires k <= |s| && c !in s
    ensures c !in s[..k]
  {
    assert forall i :: 0 <= i < k ==> s[..k][i] == s[i];
  }

  predicate Contains(s: string, sub: string) {
    exists i :: 0 <= i <= |s| && OccursAt(s, sub, i)
  }

  lemma IndexOfContains(s: string, sub: string)
    ensures IndexOf(s, sub) != -1 <==> Contains(s, sub)
  {
  }

  /** QString::left: the first n characters; the whole string when n is
      negative or not below the length. */
  function Left(s: string, n: int): (r: string)
    ensures 0 <= n <= |s| ==> r == s[..n]
    ensures (n < 0 || n >= |s|) ==> r == s
  {
    if n < 0 || n >= |s| then s else s[..n]
  }

  /** QString::right(1) != "#" with the string's last character. */
  function Last(s: string): (r: Option<char>)
    ensures r.Some? <==> |s| > 0
    ensures r.Some? ==> r.value == s[|s| - 1]
  {
    if |s| == 0 then None else Some(s[|s| - 1])
  }

  /** QString::lastIndexOf(c): the last position of c, or -1. */
  function LastIndexOf(s: string, c: char): (r: int)
    ensures -1 <= r < |s|
    ensures r >= 0 ==> s[r] == c && forall i :: r < i < |s| ==> s[i] != c
    ensures r == -1 ==> forall i :: 0 <= i < |s| ==> s[i] != c
  {
    if |s| == 0 then -1
    else if s[|s| - 1] == c then |s| - 1
    else LastIndexOf(s[..|s| - 1], c)
  }

  /** QString::split(c) keeping empty parts. */
  function Split(s: string, c: char): (parts: seq<string>)
    ensures |parts| >= 1
    ensures forall k :: 0 <= k < |parts| ==> c !in parts[k]
  {
    if |s| == 0 then [""]
    else
      var rest := Split(s[1..], c);
      if s[0] == c then [""] + rest
      else [[s[0]] + rest[0]] + rest[1..]
  }

  /** QStringList::join(c). */
  function Join(parts: seq<string>, c: char): (s: string)
    decreases |parts|
  {
    if |parts| == 0 then ""
    else if |parts| == 1 then parts[0]
    else parts[0] + [c] + Join(parts[1..], c)
  }

  /** Splitting and joining at the same separator gives the string back. */
  lemma {:induction false} JoinSplit(s: string, c: char)
    ensures Join(Split(s, c), c) == s
  {
    if |s| > 0 {
      JoinSplit(s[1..], c);
      var rest := Split(s[1..], c);
      if s[0] == c {
        assert Split(s, c) == [""] + rest;
        assert Join([""] + rest, c) == "" + [c] + Join(rest, c);
        assert s == [s[0]] + s[1..];
      } else {
        var parts := Split(s, c);
        assert parts == [[s[0]] + rest[0]] + rest[1..];
        if |rest| == 1 {
          assert Join(parts, c) == [s[0]] + rest[0];
          assert s == [s[0]] + s[1..];
        } else {
          assert parts[1..] == rest[1..];
          assert Join(parts, c) == [s[0]] + rest[0] + [c] + Join(rest[1..], c);
          assert Join(rest, c) == rest[0] + [c] + Join(rest[1..], c);
          assert s == [s[0]] + s[1..];
        }
      }
    }
  }

  /** Splitting a part without the separator, followed by the separator,
      starts a new part. */
  lemma {:induction false} SplitAfter(p: string, s: string, c: char)
    requires c !in p
    ensures Split(p + [c] + s, c) == [p] + Split(s, c)
  {
    var q := p + [c] + s;
    if |p| == 0 {
      assert q == [c] + s;
      assert q[1..] == s;
    } else {
      SplitAfter(p[1..], s, c);
      assert q[0] == p[0] && q[0] != c;
      assert q[1..] == p[1..] + [c] + s;
      var rest := Split(q[1..], c);
      assert rest == [p[1..]] + Split(s, c);
      assert Split(q, c) == [[q[0]] + rest[0]] + rest[1..];
      assert [p[0]] + p[1..] == p;
      assert rest[1..] == Split(s, c);
    }
  }

  /** A string without the separator is one part. */
  lemma {:induction false} SplitWhole(p: string, c: char)
    requires c !in p
    ensures Split(p, c) == [p]
  {
    if |p| > 0 {
      SplitWhole(p[1..], c);
      assert [p[0]] + p[1..] == p;
    }
  }

  /** Joining parts that do not hold the separator and splitting again
      gives the parts back. */
  lemma {:induction false} SplitJoin(parts: seq<string>, c: char)
    requires |parts| >= 1
    requires forall k :: 0 <= k < |parts| ==> c !in parts[k]
    ensures Split(Join(parts, c), c) == parts
  {
    if |parts| == 1 {
      SplitWhole(parts[0], c);
    } else {
      SplitJoin(parts[1..], c);
      SplitAfter(parts[0], Join(parts[1..], c), c);
      assert [parts[0]] + parts[1..] == parts;
    }
  }

  lemma {:induction false} JoinSnoc(parts: seq<string>, p: string, c: char)
    requires |parts| > 0
    ensures Join(parts + [p], c) == Join(parts, c) + [c] + p
  {
    if |parts| > 1 {
      JoinSnoc(parts[1..], p, c);
      assert (parts + [p])[1..] == parts[1..] + [p];
    }
  }

  /** The parts, each followed by the separator: what a loop appending
      "part," per part builds. */
  function Terminated(parts: seq<string>, c: char): string {
    if |parts| == 0 then ""
    else Terminated(parts[..|parts| - 1], c) + (parts[|parts| - 1] + [c])
  }

  /** Dropping the last separator of the terminated parts joins them. */
  lemma {:induction false} TerminatedIsJoin(parts: seq<string>, c: char)
    requires |parts| > 0
    ensures Terminated(parts, c) == Join(parts, c) + [c]
  {
    var n := |parts|;
    var front := parts[..n - 1];
    if n > 1 {
      TerminatedIsJoin(front, c);
      assert front + [parts[n - 1]] == parts;
      JoinSnoc(front, parts[n - 1], c);
    }
  }

  /** Terminated parts are built one part at a time. */
  lemma TerminatedSnoc(parts: seq<string>, p: string, c: char)
    ensures Terminated(parts + [p], c) == Terminated(parts, c) + (p + [c])
  {
    assert (parts + [p])[..|parts|] == parts;
  }

  /** QString::split(c, QString::SkipEmptyParts). */
  function SplitSkipEmpty(s: string, c: char): (parts: seq<string>)
    ensures forall k :: 0 <= k < |parts| ==> |parts[k]| > 0 && c !in parts[k]
  {
    NonEmpty(Split(s, c))
  }

  function NonEmpty(parts: seq<string>): (r: seq<string>)
    ensures forall k :: 0 <= k < |r| ==> |r[k]| > 0 && r[k] in parts
    ensures forall p :: p in parts && |p| > 0 ==> p in r
  {
    if |parts| == 0 then []
    else if |parts[0]| == 0 then NonEmpty(parts[1..])
    else [parts[0]] + NonEmpty(parts[1..])
  }

  // ---- decimal numbers: QString::number and QString::toInt ----

  predicate IsDigit(ch: char) {
    '0' <= ch <= '9'
  }

  function DigitChar(d: nat): (ch: char)
    requires d < 10
    ensures IsDigit(ch)
  {
    ('0' as int + d) as char
  }

  function DigitValue(ch: char): (d: nat)
    requires IsDigit(ch)
    ensures d < 10
  {
    ch as int - '0' as int
  }

  /** QString::number(n) for n >= 0. */
  function NatToString(n: nat): (s: string)
    ensures |s| > 0
    ensures forall k :: 0 <= k < |s| ==> IsDigit(s[k])
    ensures s[0] != '-' && s[0] != '+'
  {
    if n < 10 then [DigitChar(n)] else NatToString(n / 10) + [DigitChar(n % 10)]
  }

  /** The value of a string of decimal digits. */
  function DigitsValue(s: string): nat
    requires forall k :: 0 <= k < |s| ==> IsDigit(s[k])
  {
    if |s| == 0 then 0 else 10 * DigitsValue(s[..|s| - 1]) + DigitValue(s[|s| - 1])
  }

  lemma {:induction false} DigitsValueOfNatToString(n: nat)
    ensures DigitsValue(NatToString(n)) == n
  {
    var s := NatToString(n);
    if n >= 10 {
      DigitsValueOfNatToString(n / 10);
      assert s[..|s| - 1] == NatToString(n / 10);
    }
  }

  const Int32Min: int := -0x8000_0000
  const Int32Max: int := 0x7fff_ffff

  predicate AllDigits(s: string) {
    |s| > 0 && forall k :: 0 <= k < |s| ==> IsDigit(s[k])
  }

  /** The characters QChar::isSpace accepts among ASCII: space, tab,
      line feed, vertical tab, form feed and carriage return. */
  predicate IsSpace(ch: char) {
    ch == ' ' || ch == '\t' || ch == '\n' || ch == '\U{000B}' || ch == '\U{000C}' || ch == '\r'
  }

  /** s without the white space at its start and at its end, as
      QString::trimmed leaves it. */
  function Trimmed(s: string): (t: string)
    ensures |t| <= |s|
    ensures t != [] ==> !IsSpace(t[0]) && !IsSpace(t[|t| - 1])
    ensures (forall k :: 0 <= k < |s| ==> !IsSpace(s[k])) ==> t == s
  {
    if s == [] then []
    else if IsSpace(s[0]) then Trimmed(s[1..])
    else if IsSpace(s[|s| - 1]) then Trimmed(s[..|s| - 1])
    else s
  }

  /** QString::toInt in base 10: white space around the text is skipped,
      then an optional sign and decimal digits, in the range of a 32-bit
      int; anything else is no number. */
  function ToInt(s: string): (r: Option<int>)
    ensures r.Some? ==> Int32Min <= r.value <= Int32Max
    ensures r.Some? ==> |s| > 0
  {
    ToIntTrimmed(Trimmed(s))
  }

  /** QString::toInt(&ok) in base 10 on text with no white space around
      it: an optional sign followed by at least one digit, with the value
      in the 32-bit range; None when ok would be false. */
  function ToIntTrimmed(s: string): (r: Option<int>)
    ensures r.Some? ==> Int32Min <= r.value <= Int32Max
    ensures r.Some? ==> |s| > 0
  {
    if |s| > 0 && (s[0] == '-' || s[0] == '+') && AllDigits(s[1..]) then
      var v: int := DigitsValue(s[1..]);
      var signed := if s[0] == '-' then -v else v;
      if Int32Min <= signed <= Int32Max then Some(signed) else None
    else if AllDigits(s) then
      var v := DigitsValue(s);
      if v <= Int32Max then Some(v) else None
    else None
  }

  /** A trailing white space character does not change what is left
      after trimming. */
  lemma {:induction false} TrimmedDropsTrailingSpace(s: string, c: char)
    requires IsSpace(c)
    ensures Trimmed(s + [c]) == Trimmed(s)
    decreases |s|
  {
    if s == [] {
      assert Trimmed([c]) == Trimmed([]);
    } else if IsSpace(s[0]) {
      assert (s + [c])[1..] == s[1..] + [c];
      TrimmedDropsTrailingSpace(s[1..], c);
    } else {
      assert (s + [c])[..|s|] == s;
    }
  }

  /** toInt reads the same number with white space added around it. */
  lemma ToIntSkipsSpace(s: string, c: char)
    requires IsSpace(c)
    ensures ToInt([c] + s) == ToInt(s)
    ensures ToInt(s + [c]) == ToInt(s)
  {
    assert ([c] + s)[1..] == s;
    TrimmedDropsTrailingSpace(s, c);
  }

  /** A count written with QString::number reads back with toInt. */
  lemma ToIntOfNatToString(n: nat)
    requires n <= Int32Max
    ensures ToInt(NatToString(n)) == Some(n)
  {
    DigitsValueOfNatToString(n);
  }

  /** sUNDEF is not a number. */
  lemma ToIntOfUndef()
    ensures ToInt(SUndef) == None
  {
  }

  // ---- QString::arg ----

  /** A place marker as QString::arg reads one: '%', an optional 'L' and
      one or two decimal digits; its number and its length in characters. */
  datatype Marker = Marker(number: nat, length: nat)

  /** The place marker at the start of s, if s starts with one. */
  function MarkerAt(s: string): (m: Option<Marker>)
    ensures m.Some? ==> 2 <= m.value.length <= |s| && s[0] == '%' && m.value.number < 100
    ensures |s| > 0 && s[0] != '%' ==> m.None?
  {
    if |s| < 2 || s[0] != '%' then None
    else
      var j := if s[1] == 'L' then 2 else 1;
      if j < |s| && IsDigit(s[j]) then
        if j + 1 < |s| && IsDigit(s[j + 1]) then Some(Marker(10 * DigitValue(s[j]) + DigitValue(s[j + 1]), j + 2))
        else Some(Marker(DigitValue(s[j]), j + 1))
      else None
  }

  function Lower(n: nat, o: Option<nat>): (r: Option<nat>)
    ensures r.Some? && r.value <= n
    ensures o.Some? ==> r.value <= o.value
    ensures r == Some(n) || r == o
  {
    if o.None? || n < o.value then Some(n) else o
  }

  /** The lowest number of a place marker in s; None when s has none. */
  function LowestMarker(s: string): (n: Option<nat>)
    ensures '%' !in s ==> n.None?
    decreases |s|
  {
    if s == [] then None
    else
      match MarkerAt(s)
      case Some(m) => Lower(m.number, LowestMarker(s[m.length..]))
      case None => LowestMarker(s[1..])
  }

  /** s with every place marker numbered n replaced by a; other text and
      other markers are copied, and a is not scanned again. */
  function Substitute(s: string, n: nat, a: string): (r: string)
    ensures '%' !in s ==> r == s
    decreases |s|
  {
    if s == [] then []
    else
      match MarkerAt(s)
      case Some(m) => (if m.number == n then a else s[..m.length]) + Substitute(s[m.length..], n, a)
      case None => [s[0]] + Substitute(s[1..], n, a)
  }

  /** QString::arg(a) (Qt 5): the lowest-numbered place marker, in all
      its occurrences, replaced by a; a string without a marker comes back
      unchanged. */
  function Arg(s: string, a: string): (r: string)
    ensures LowestMarker(s).None? ==> r == s
    ensures '%' !in s ==> r == s
  {
    match LowestMarker(s)
    case None => s
    case Some(n) => Substitute(s, n, a)
  }

  lemma NotInTail(x: string, c: char)
    requires x != [] && c !in x
    ensures x[0] != c && c !in x[1..]
  {
    assert x[0] in x;
    forall k | 0 <= k < |x| - 1
      ensures x[1..][k] != c
    {
      assert x[1..][k] == x[k + 1];
    }
  }

  /** Text without a '%' in front of the markers does not change which
      marker is lowest. */
  lemma {:induction false} PlainPrefixLowest(x: string, y: string)
    requires '%' !in x
    ensures LowestMarker(x + y) == LowestMarker(y)
  {
    if x != [] {
      var s := x + y;
      NotInTail(x, '%');
      assert s[0] == x[0];
      assert MarkerAt(s).None?;
      assert LowestMarker(s) == LowestMarker(s[1..]);
      assert s[1..] == x[1..] + y;
      PlainPrefixLowest(x[1..], y);
    } else {
      assert x + y == y;
    }
  }

  /** Text without a '%' in front of the markers is copied unchanged. */
  lemma {:induction false} PlainPrefixSubstitute(x: string, y: string, n: nat, a: string)
    requires '%' !in x
    ensures Substitute(x + y, n, a) == x + Substitute(y, n, a)
  {
    if x != [] {
      var s := x + y;
      NotInTail(x, '%');
      assert s[0] == x[0];
      assert MarkerAt(s).None?;
      assert Substitute(s, n, a) == [x[0]] + Substitute(s[1..], n, a);
      assert s[1..] == x[1..] + y;
      PlainPrefixSubstitute(x[1..], y, n, a);
      SeqAssoc([x[0]], x[1..], Substitute(y, n, a));
      assert [x[0]] + x[1..] == x;
    } else {
      assert x + y == y;
    }
  }

  lemma PlainPrefix(x: string, y: string, n: nat, a: string)
    requires '%' !in x
    ensures LowestMarker(x + y) == LowestMarker(y)
    ensures Substitute(x + y, n, a) == x + Substitute(y, n, a)
  {
    PlainPrefixLowest(x, y);
    PlainPrefixSubstitute(x, y, n, a);
  }

  /** A one-digit marker %d followed by text that does not start with a
      digit. */
  lemma OneDigitMarker(d: char, rest: string, n: nat, a: string)
    requires IsDigit(d) && (rest == [] || !IsDigit(rest[0]))
    ensures MarkerAt(['%', d] + rest) == Some(Marker(DigitValue(d), 2))
    ensures LowestMarker(['%', d] + rest) == Lower(DigitValue(d), LowestMarker(rest))
    ensures Substitute(['%', d] + rest, n, a)
            == (if DigitValue(d) == n then a else ['%', d]) + Substitute(rest, n, a)
  {
    var s := ['%', d] + rest;
    assert s[0] == '%' && s[1] == d;
    assert rest != [] ==> s[2] == rest[0];
    assert MarkerAt(s) == Some(Marker(DigitValue(d), 2));
    assert s[2..] == rest;
    assert s[..2] == ['%', d];
  }

  /** In p%1q%2 with plain p and q, %1 is the lowest marker. */
  lemma LowestOfTwo(p: string, q: string)
    requires '%' !in p && '%' !in q && q != [] && !IsDigit(q[0])
    ensures LowestMarker(p + "%1" + q + "%2") == Some(1)
  {
    var one, two := ['%', '1'], ['%', '2'];
    var tail := one + (q + two);
    Regroup(p, one, q, two);
    PlainPrefixLowest(p, tail);
    OneDigitMarker('1', q + two, 1, []);
    PlainPrefixLowest(q, two);
    LoneMarker('2', 1, []);
  }

  /** p + a + b + c regrouped from the right. */
  lemma Regroup<T>(p: seq<T>, a: seq<T>, b: seq<T>, c: seq<T>)
    ensures p + a + b + c == p + (a + (b + c))
  {
  }

  /** A string that is one marker %d alone. */
  lemma LoneMarker(d: char, n: nat, a: string)
    requires IsDigit(d)
    ensures LowestMarker(['%', d]) == Some(DigitValue(d))
    ensures Substitute(['%', d], n, a) == if DigitValue(d) == n then a else ['%', d]
  {
    OneDigitMarker(d, [], n, a);
    assert ['%', d] + [] == ['%', d];
    AppendEmpty(a);
  }

  /** In p%1q%2 with plain p and q, filling %1 leaves the rest. */
  lemma FillFirstOfTwo(p: string, q: string, a: string)
    requires '%' !in p && '%' !in q && q != [] && !IsDigit(q[0])
    ensures Substitute(p + "%1" + q + "%2", 1, a) == p + a + q + "%2"
  {
    var one, two := ['%', '1'], ['%', '2'];
    Regroup(p, one, q, two);
    Regroup(p, a, q, two);
    calc {
      Substitute(p + (one + (q + two)), 1, a);
      { PlainPrefixSubstitute(p, one + (q + two), 1, a); }
      p + Substitute(one + (q + two), 1, a);
      { OneDigitMarker('1', q + two, 1, a); }
      p + (a + Substitute(q + two, 1, a));
      { PlainPrefixSubstitute(q, two, 1, a); }
      p + (a + (q + Substitute(two, 1, a)));
      { LoneMarker('2', 1, a); }
      p + (a + (q + two));
    }
  }

  /** A template p%1q%2 with plain p and q (q not starting with a digit):
      the first arg fills %1 and leaves %2. */
  lemma FirstArgOfTwo(p: string, q: string, a: string)
    requires '%' !in p && '%' !in q && q != [] && !IsDigit(q[0])
    ensures Arg(p + "%1" + q + "%2", a) == p + a + q + "%2"
  {
    LowestOfTwo(p, q);
    FillFirstOfTwo(p, q, a);
  }

  /** The second arg fills %2 when the text before it holds no '%'. */
  lemma SecondArg(x: string, b: string)
    requires '%' !in x
    ensures Arg(x + "%2", b) == x + b
  {
    var two := ['%', '2'];
    PlainPrefix(x, two, 2, b);
    OneDigitMarker('2', [], 2, b);
    assert two == ['%', '2'] + [];
  }

  /** A template p%1 with plain p: arg appends a to p, whatever a holds. */
  lemma OnlyArg(p: string, a: string)
    requires '%' !in p
    ensures Arg(p + "%1", a) == p + a
  {
    var one := ['%', '1'];
    PlainPrefix(p, one, 1, a);
    OneDigitMarker('1', [], 1, a);
    assert one == ['%', '1'] + [];
  }

  /** Chained args on p%1q%2 when the first value is itself "%1": the
      second arg fills the %1 the first inserted, and %2 stays. */
  lemma ChainedArgsRefill(p: string, q: string, a: string, b: string)
    requires '%' !in p && '%' !in q && q != [] && !IsDigit(q[0]) && a == "%1"
    ensures Arg(Arg(p + "%1" + q + "%2", a), b) == p + b + q + "%2"
  {
    FirstArgOfTwo(p, q, a);
    FirstArgOfTwo(p, q, b);
  }

  /** Chained args on p%1q%2 give p a q b when a holds no '%'. */
  lemma ChainedArgs(p: string, q: string, a: string, b: string)
    requires '%' !in p && '%' !in q && q != [] && !IsDigit(q[0]) && '%' !in a
    ensures Arg(Arg(p + "%1" + q + "%2", a), b) == p + a + q + b
  {
    FirstArgOfTwo(p, q, a);
    SecondArg(p + a + q, b);
  }
}
