/** pkg/strings/strings.go: lists of integers as text. A string is its bytes, one char each. */
module IntLists {
  import opened Basics
  import opened Bits

  predicate IsDigit(c: char) {
    '0' <= c <= '9'
  }

  function DigitChar(d: nat): (c: char)
    requires d < 10
    ensures IsDigit(c) && DigitOf(c) == d
  {
    ('0' as int + d) as char
  }

  function DigitOf(c: char): nat
    requires IsDigit(c)
  {
    c as int - '0' as int
  }

  /** strconv.FormatInt in base 10. */
  function Digits(n: nat): (s: string)
    ensures s != [] && forall i :: 0 <= i < |s| ==> IsDigit(s[i])
  {
    (if n < 10 then [] else Digits(n / 10)) + [DigitChar(n % 10)]
  }

  function Format(x: int): string {
    if x < 0 then "-" + Digits(-x) else Digits(x)
  }

  /** The value of a non-empty string of digits. */
  function Value(s: string): Option<nat> {
    if s == [] || !IsDigit(s[|s| - 1]) then None
    else
      var d := DigitOf(s[|s| - 1]);
      if |s| == 1 then Some(d)
      else match Value(s[..|s| - 1])
        case None => None
        case Some(v) => Some(10 * v + d)
  }

  predicate InRange(x: int, bits: nat)
    requires 0 < bits
  {
    var top: int := Pow2(bits - 1);
    -top <= x < top
  }

  predicate AllInRange(xs: seq<int>, bits: nat)
    requires 0 < bits
  {
    forall i :: 0 <= i < |xs| ==> InRange(xs[i], bits)
  }

  /** strconv.ParseInt in base 10: an optional sign, digits, and a value that fits the given bits. */
  function ParseInt(s: string, bits: nat): (r: Option<int>)
    requires 0 < bits
    ensures r.Some? ==> InRange(r.value, bits)
  {
    var negative := s != [] && s[0] == '-';
    match Value(if s != [] && (s[0] == '-' || s[0] == '+') then s[1..] else s)
    case None => None
    case Some(v) =>
      var x := if negative then -(v as int) else v;
      if InRange(x, bits) then Some(x) else None
  }

  lemma {:induction false} DigitsValue(n: nat)
    ensures Value(Digits(n)) == Some(n)
  {
    var s := Digits(n);
    hide DigitChar, DigitOf, IsDigit;
    assert s[|s| - 1] == DigitChar(n % 10);
    if n >= 10 {
      DigitsValue(n / 10);
      assert s[..|s| - 1] == Digits(n / 10);
    }
  }

  lemma FormatParses(x: int, bits: nat)
    requires 0 < bits && InRange(x, bits)
    ensures ParseInt(Format(x), bits) == Some(x)
  {
    hide Digits, Value, InRange;
    DigitsValue(if x < 0 then -x else x);
    assert x < 0 ==> Format(x)[1..] == Digits(-x);
  }

  /** The place of the first sep in s. */
  function Find(s: string, sep: string): (k: Option<nat>)
    ensures k.Some? ==> k.value + |sep| <= |s|
  {
    if |s| < |sep| then None
    else if s[..|sep|] == sep then Some(0)
    else if s == [] then None
    else match Find(s[1..], sep)
      case None => None
      case Some(k) => Some(k + 1)
  }

  /** strings.Split. */
  function Pieces(s: string, sep: string): (pieces: seq<string>)
    ensures sep != [] ==> pieces != []
  {
    if sep == [] then seq(|s|, i requires 0 <= i < |s| => [s[i]])
    else match Find(s, sep)
      case None => [s]
      case Some(k) => [s[..k]] + Pieces(s[k + |sep|..], sep)
  }

  function ParseAll(pieces: seq<string>, bits: nat): Option<seq<int>>
    requires 0 < bits
  {
    if pieces == [] then Some([])
    else match ParseAll(pieces[..|pieces| - 1], bits)
      case None => None
      case Some(xs) => match ParseInt(pieces[|pieces| - 1], bits)
        case None => None
        case Some(x) => Some(xs + [x])
  }

  function Split(s: string, sep: string, bits: nat): Option<seq<int>>
    requires 0 < bits
  {
    if s == [] then Some([]) else ParseAll(Pieces(s, sep), bits)
  }

  function Terminated(xs: seq<int>, sep: string): string {
    if xs == [] then [] else Terminated(xs[..|xs| - 1], sep) + Format(xs[|xs| - 1]) + sep
  }

  function Join(xs: seq<int>, sep: string): string {
    var all := Terminated(xs, sep);
    if xs == [] then []
    else if |xs| == 1 then Format(xs[0])
    else all[..|all| - 1]
  }

  /** JoinInt32s and JoinInt64s, which differ in the type of the numbers only. */
  method JoinInts(xs: seq<int>, sep: string) returns (s: string)
    ensures s == Join(xs, sep)
  {
    if |xs| == 0 {
      return "";
    }
    if |xs| == 1 {
      return Format(xs[0]);
    }
    s := "";
    for i := 0 to |xs|
      invariant s == Terminated(xs[..i], sep)
    {
      assert xs[..i + 1][..i] == xs[..i];
      s := s + Format(xs[i]);
      s := s + sep;
    }
    assert xs[..|xs|] == xs;
    if |s| > 0 {
      s := s[..|s| - 1];
    }
  }

  /** SplitInt32s and SplitInt64s, for 32 and 64 bits. */
  method SplitInts(s: string, sep: string, bits: nat) returns (r: Option<seq<int>>)
    requires 0 < bits
    ensures r == Split(s, sep, bits)
  {
    if s == "" {
      return Some([]);
    }
    var pieces := Pieces(s, sep);
    var xs := [];
    for i := 0 to |pieces|
      invariant ParseAll(pieces[..i], bits) == Some(xs)
    {
      assert pieces[..i + 1][..i] == pieces[..i];
      var x := ParseInt(pieces[i], bits);
      if x.None? {
        FailsForGood(pieces, i + 1, bits);
        return None;
      }
      xs := xs + [x.value];
    }
    assert pieces[..|pieces|] == pieces;
    r := Some(xs);
  }

  lemma {:induction false} FailsForGood(pieces: seq<string>, i: nat, bits: nat)
    requires 0 < bits && i <= |pieces| && ParseAll(pieces[..i], bits).None?
    ensures ParseAll(pieces, bits).None?
    decreases |pieces|
  {
    if i == |pieces| {
      assert pieces[..i] == pieces;
    } else {
      assert pieces[..|pieces| - 1][..i] == pieces[..i];
      FailsForGood(pieces[..|pieces| - 1], i, bits);
    }
  }

  /** A printed number has no leading zero, and a sign exactly if it is negative. */
  lemma {:induction false} NoLeadingZero(n: nat)
    ensures Digits(n)[0] == '0' <==> n == 0
    ensures n == 0 ==> Digits(n) == "0"
  {
    if n >= 10 {
      NoLeadingZero(n / 10);
      assert Digits(n)[0] == Digits(n / 10)[0];
    }
  }

  lemma FormatExactly(x: int)
    ensures Format(x)[0] == '-' <==> x < 0
    ensures x < 0 ==> Format(x)[1..] == Format(-x)
    ensures x != 0 ==> Format(x)[0] != '0' && (x < 0 ==> Format(x)[1] != '0')
    ensures Format(0) == "0"
  {
    NoLeadingZero(if x < 0 then -x else x);
  }

  /** A number is read from digits alone, decimally. */
  lemma {:induction false} ValueExactly(s: string)
    ensures Value(s).Some? <==> s != [] && forall i :: 0 <= i < |s| ==> '0' <= s[i] <= '9'
  {
    if |s| > 1 {
      var n := |s| - 1;
      ValueExactly(s[..n]);
      assert s == s[..n] + [s[n]];
    }
  }

  lemma OneMoreDigit(s: string, c: char)
    requires Value(s).Some? && '0' <= c <= '9'
    ensures Value(s + [c]) == Some(10 * Value(s).value + (c as int - '0' as int))
  {
    assert (s + [c])[..|s|] == s;
  }

  /** With or without a sign, and only within the range. */
  lemma ParseIntExactly(s: string, bits: nat)
    requires 0 < bits && (s == [] || (s[0] != '-' && s[0] != '+'))
    ensures ParseInt(s, bits).Some? <==> Value(s).Some? && InRange(Value(s).value, bits)
    ensures Value(s).Some? ==> var v: int := Value(s).value;
      && (InRange(v, bits) ==> ParseInt(s, bits) == ParseInt("+" + s, bits) == Some(v))
      && ParseInt("-" + s, bits) == if InRange(-v, bits) then Some(-v) else None
    ensures Value(s).None? ==> ParseInt("+" + s, bits) == ParseInt("-" + s, bits) == None
  {
    hide Value, InRange;
    assert ("+" + s)[1..] == s && ("-" + s)[1..] == s;
  }

  predicate Occurs(s: string, sep: string, i: nat) {
    i + |sep| <= |s| && s[i..i + |sep|] == sep
  }

  lemma OccursLater(s: string, sep: string, i: nat)
    requires s != []
    ensures Occurs(s[1..], sep, i) <==> Occurs(s, sep, i + 1)
  {
    if i + 1 + |sep| <= |s| {
      assert s[1..][i..i + |sep|] == s[i + 1..i + 1 + |sep|];
    }
  }

  /** The first occurrence, if there is one. */
  lemma {:induction false} FindExactly(s: string, sep: string)
    ensures match Find(s, sep)
      case Some(k) => Occurs(s, sep, k) && forall i: nat :: i < k ==> !Occurs(s, sep, i)
      case None => forall i: nat :: !Occurs(s, sep, i)
  {
    hide Occurs;
    AtFront(s, sep);
    if |sep| <= |s| && s[..|sep|] != sep && s != [] {
      FindExactly(s[1..], sep);
      if Find(s[1..], sep).Some? {
        OccursLater(s, sep, Find(s[1..], sep).value);
      }
      forall i: nat | 0 < i && Occurs(s, sep, i)
        ensures Occurs(s[1..], sep, i - 1)
      {
        OccursLater(s, sep, i - 1);
      }
    }
  }

  lemma AtFront(s: string, sep: string)
    ensures |sep| <= |s| ==> (Occurs(s, sep, 0) <==> s[..|sep|] == sep)
    ensures |s| < |sep| ==> forall i: nat :: !Occurs(s, sep, i)
  {
  }

  function Rejoined(pieces: seq<string>, sep: string): string {
    if pieces == [] then [] else if |pieces| == 1 then pieces[0]
    else pieces[0] + sep + Rejoined(pieces[1..], sep)
  }

  /** The pieces make up the text again, and none of them contains the separator. */
  lemma {:induction false} PiecesExactly(s: string, sep: string)
    requires sep != []
    ensures Rejoined(Pieces(s, sep), sep) == s
    ensures forall i :: 0 <= i < |Pieces(s, sep)| ==> Find(Pieces(s, sep)[i], sep) == None
    decreases |s|
  {
    hide Find, Occurs;
    FindExactly(s, sep);
    if Find(s, sep).Some? {
      var k := Find(s, sep).value;
      var front, back := s[..k], s[k + |sep|..];
      var rest := Pieces(back, sep);
      PiecesExactly(back, sep);
      NotInFront(s, sep, k);
      Around(s, sep, k);
      assert Pieces(s, sep) == [front] + rest;
      RejoinOne(front, rest, sep);
    }
  }

  lemma RejoinOne(front: string, rest: seq<string>, sep: string)
    requires rest != []
    ensures Rejoined([front] + rest, sep) == front + sep + Rejoined(rest, sep)
  {
    assert ([front] + rest)[1..] == rest;
  }

  lemma Around(s: string, sep: string, k: nat)
    requires Occurs(s, sep, k)
    ensures s == s[..k] + sep + s[k + |sep|..]
  {
    assert s == s[..k] + s[k..k + |sep|] + s[k + |sep|..];
  }

  lemma NotInFront(s: string, sep: string, k: nat)
    requires sep != [] && Find(s, sep) == Some(k)
    ensures Find(s[..k], sep) == None
  {
    hide Find;
    FindExactly(s, sep);
    FindExactly(s[..k], sep);
    forall i: nat
      ensures !Occurs(s[..k], sep, i)
    {
      assert i + |sep| <= k ==> s[..k][i..i + |sep|] == s[i..i + |sep|];
      assert i < k ==> !Occurs(s, sep, i);
    }
  }

  /** A list of pieces is read exactly if each of them is. */
  lemma {:induction false} ParseAllExactly(pieces: seq<string>, bits: nat)
    requires 0 < bits
    ensures match ParseAll(pieces, bits)
      case Some(xs) => |xs| == |pieces| && forall i :: 0 <= i < |xs| ==> ParseInt(pieces[i], bits) == Some(xs[i])
      case None => exists i :: 0 <= i < |pieces| && ParseInt(pieces[i], bits) == None
  {
    hide ParseInt;
    if pieces != [] {
      var n := |pieces| - 1;
      ParseAllExactly(pieces[..n], bits);
      if ParseAll(pieces[..n], bits).None? {
        var i :| 0 <= i < n && ParseInt(pieces[..n][i], bits) == None;
        assert ParseInt(pieces[i], bits) == None;
      } else {
        assert ParseInt(pieces[n], bits).None? ==> ParseAll(pieces, bits).None?;
      }
    }
  }

  /** A separator that no printed number contains. */
  predicate Separates(sep: string) {
    |sep| == 1 && sep[0] != '-' && !IsDigit(sep[0])
  }

  lemma {:induction false} FindsSeparator(a: string, sep: string, b: string)
    requires |sep| == 1 && sep[0] !in a
    ensures Find(a + sep + b, sep) == Some(|a|) && Find(a, sep) == None
  {
    var s := a + sep + b;
    assert s[..1] == [s[0]] && sep == [sep[0]];
    if a != [] {
      assert a[0] != sep[0] && a[..1] == [a[0]];
      assert s[1..] == a[1..] + sep + b;
      FindsSeparator(a[1..], sep, b);
    }
  }

  lemma TerminatedIsJoin(xs: seq<int>, sep: string)
    requires xs != [] && |sep| == 1
    ensures Terminated(xs, sep) == Join(xs, sep) + sep
  {
    hide Format;
    var n := |xs| - 1;
    var front := Terminated(xs[..n], sep) + Format(xs[n]);
    assert Terminated(xs, sep) == front + sep;
    if n == 0 {
      assert xs[..0] == [];
      assert front == Format(xs[0]);
    } else {
      assert (front + sep)[..|front + sep| - 1] == front;
    }
  }

  /** The numbers of a list, printed with separators between them, as one number and the others. */
  lemma JoinFront(xs: seq<int>, sep: string)
    requires |xs| > 1 && |sep| == 1
    ensures Join(xs, sep) == Format(xs[0]) + sep + Join(xs[1..], sep)
  {
    hide Terminated, Join, Format;
    TerminatedFront(xs, sep);
    TerminatedIsJoin(xs, sep);
    TerminatedIsJoin(xs[1..], sep);
    var back := Format(xs[0]) + sep + Join(xs[1..], sep);
    assert Join(xs, sep) + sep == back + sep;
    SameFront(Join(xs, sep), back, sep);
  }

  lemma SameFront(a: string, b: string, c: string)
    requires a + c == b + c
    ensures a == b
  {
    assert a == (a + c)[..|a|] && b == (b + c)[..|b|];
  }

  lemma {:induction false} TerminatedFront(xs: seq<int>, sep: string)
    requires xs != []
    ensures Terminated(xs, sep) == Format(xs[0]) + sep + Terminated(xs[1..], sep)
  {
    hide Format;
    var n := |xs| - 1;
    if n == 0 {
      assert xs[..0] == [] && xs[1..] == [];
    } else {
      var first, inner := Format(xs[0]) + sep, Terminated(xs[1..n], sep);
      TerminatedFront(xs[..n], sep);
      assert xs[..n][1..] == xs[1..n] == xs[1..][..n - 1];
      assert Terminated(xs, sep) == (first + inner) + Format(xs[n]) + sep;
      assert Terminated(xs[1..], sep) == inner + Format(xs[n]) + sep;
    }
  }

  function Formats(xs: seq<int>): seq<string> {
    seq(|xs|, i requires 0 <= i < |xs| => Format(xs[i]))
  }

  lemma NoSeparator(x: int, sep: string)
    requires Separates(sep)
    ensures sep[0] !in Format(x)
  {
  }

  lemma JoinOne(xs: seq<int>, sep: string)
    requires |xs| == 1
    ensures Join(xs, sep) == Format(xs[0])
  {
  }

  lemma {:induction false} PiecesOfJoin(xs: seq<int>, sep: string)
    requires xs != [] && Separates(sep)
    ensures Pieces(Join(xs, sep), sep) == Formats(xs)
  {
    hide Join, Format, Find;
    var s := Join(xs, sep);
    NoSeparator(xs[0], sep);
    if |xs| == 1 {
      JoinOne(xs, sep);
      FindsSeparator(Format(xs[0]), sep, []);
    } else {
      var first, rest := Format(xs[0]), Join(xs[1..], sep);
      JoinFront(xs, sep);
      FindsSeparator(first, sep, rest);
      assert s[..|first|] == first && s[|first| + 1..] == rest;
      PiecesOfJoin(xs[1..], sep);
    }
  }

  lemma {:induction false} FormatsParse(xs: seq<int>, bits: nat)
    requires 0 < bits && AllInRange(xs, bits)
    ensures ParseAll(Formats(xs), bits) == Some(xs)
  {
    hide Format, ParseInt;
    if xs != [] {
      var n := |xs| - 1;
      assert xs[..n] + [xs[n]] == xs;
      FormatsParse(xs[..n], bits);
      assert Formats(xs)[..n] == Formats(xs[..n]);
      FormatParses(xs[n], bits);
    }
  }

  lemma JoinIsNotEmpty(xs: seq<int>, sep: string)
    requires xs != [] && |sep| == 1
    ensures Join(xs, sep) != []
  {
    if |xs| > 1 {
      JoinFront(xs, sep);
    }
  }

  /** A printed list parses back. */
  lemma RoundTrip(xs: seq<int>, sep: string, bits: nat)
    requires 0 < bits && Separates(sep)
    requires AllInRange(xs, bits)
    ensures Split(Join(xs, sep), sep, bits) == Some(xs)
  {
    if xs != [] {
      JoinIsNotEmpty(xs, sep);
      PiecesOfJoin(xs, sep);
      FormatsParse(xs, bits);
    }
  }

  /** The ranges of the two types. */
  lemma Ranges(x: int)
    ensures InRange(x, 32) <==> -0x8000_0000 <= x < 0x8000_0000
    ensures InRange(x, 64) <==> -0x8000_0000_0000_0000 <= x < 0x8000_0000_0000_0000
  {
    PowersOfTwo();
  }

  /** Both pairs, as the connection handlers use them. */
  lemma Int32sRoundTrip(xs: seq<int32>)
    ensures Split(Join(xs, ","), ",", 32) == Some(xs)
  {
    hide InRange;
    forall i | 0 <= i < |xs|
      ensures InRange(xs[i], 32)
    {
      Ranges(xs[i]);
    }
    RoundTrip(xs, ",", 32);
  }

  lemma Int64sRoundTrip(xs: seq<int>)
    requires forall i :: 0 <= i < |xs| ==> -0x8000_0000_0000_0000 <= xs[i] < 0x8000_0000_0000_0000
    ensures Split(Join(xs, ","), ",", 64) == Some(xs)
  {
    hide InRange;
    forall i | 0 <= i < |xs|
      ensures InRange(xs[i], 64)
    {
      Ranges(xs[i]);
    }
    RoundTrip(xs, ",", 64);
  }

  ghost predicate ReadsBack(sep: string, bits: nat)
    requires 0 < bits
  {
    forall xs: seq<int> :: AllInRange(xs, bits) ==> Split(Join(xs, sep), sep, bits) == Some(xs)
  }

  /** Only the last byte is cut off, and signs and digits are no separators: printed lists parse back for
      exactly the separators of one byte that no number contains. */
  lemma SeparatorsThatReadBack(sep: string, bits: nat)
    requires 5 <= bits
    ensures ReadsBack(sep, bits) <==> Separates(sep)
  {
    if Separates(sep) {
      forall xs: seq<int> | AllInRange(xs, bits)
        ensures Split(Join(xs, sep), sep, bits) == Some(xs)
      {
        RoundTrip(xs, sep, bits);
      }
    } else {
      var xs := Misread(sep, bits);
    }
  }

  /** A list that comes back otherwise. */
  lemma Misread(sep: string, bits: nat) returns (xs: seq<int>)
    requires 5 <= bits && !Separates(sep)
    ensures AllInRange(xs, bits) && Split(Join(xs, sep), sep, bits) != Some(xs)
  {
    hide Split, Join, Pow2;
    SmallInRange(bits);
    if |sep| == 1 {
      var x: int := if sep[0] == '-' then -1 else DigitOf(sep[0]) as int;
      xs := [x];
      MisreadSign(sep, x, bits);
    } else {
      xs := [1, 2];
      MisreadPair(sep, bits);
    }
  }

  lemma SmallInRange(bits: nat)
    requires 5 <= bits
    ensures forall x :: -10 <= x < 10 ==> InRange(x, bits)
  {
    var b := bits - 5;
    assert Pow2(b + 4) == 2 * Pow2(b + 3) == 4 * Pow2(b + 2) == 8 * Pow2(b + 1) == 16 * Pow2(b);
  }

  /** A text that begins with the separator does not parse. */
  lemma EmptyPieceFails(s: string, sep: string, bits: nat)
    requires 0 < bits && s != [] && sep != [] && Find(s, sep) == Some(0)
    ensures Split(s, sep, bits) == None
  {
    hide Find;
    var pieces := Pieces(s, sep);
    assert pieces[0] == [] && pieces[..1] == [[]];
    assert pieces[..1][..0] == [];
    assert ParseInt([], bits) == None;
    FailsForGood(pieces, 1, bits);
  }

  lemma MisreadSign(sep: string, x: int, bits: nat)
    requires 0 < bits && |sep| == 1
    requires (sep[0] == '-' && x == -1) || (IsDigit(sep[0]) && x == DigitOf(sep[0]))
    ensures Split(Join([x], sep), sep, bits) == None
  {
    var s := Join([x], sep);
    JoinOne([x], sep);
    assert s[..1] == sep;
    EmptyPieceFails(s, sep, bits);
  }

  lemma {:induction false} ParseAllKeepsLength(pieces: seq<string>, bits: nat)
    requires 0 < bits
    ensures ParseAll(pieces, bits).Some? ==> |ParseAll(pieces, bits).value| == |pieces|
  {
    if pieces != [] {
      ParseAllKeepsLength(pieces[..|pieces| - 1], bits);
    }
  }

  lemma {:induction false} TwentyOrMore(s: string)
    requires s != [] && s[0] == '2' && Value(s).Some?
    ensures Value(s).value >= if |s| == 1 then 2 else 20
  {
    if |s| > 1 {
      TwentyOrMore(s[..|s| - 1]);
    }
  }

  lemma JoinPair(sep: string)
    ensures Join([1, 2], sep) == if sep == [] then "1" else "1" + sep + "2" + sep[..|sep| - 1]
  {
    var all := Terminated([1, 2], sep);
    assert Format(1) == "1" && Format(2) == "2";
    var xs := [1, 2];
    assert xs[..1] == [1] && [1][..0] == [];
    assert Terminated([1], sep) == [] + Format(1) + sep == "1" + sep;
    assert all == Terminated(xs[..1], sep) + Format(xs[1]) + sep;
    assert all == "1" + sep + "2" + sep;
    if sep != [] {
      assert all == ("1" + sep + "2" + sep[..|sep| - 1]) + [sep[|sep| - 1]];
    }
  }

  lemma MisreadPair(sep: string, bits: nat)
    requires 0 < bits && |sep| != 1
    ensures Split(Join([1, 2], sep), sep, bits) != Some([1, 2])
  {
    hide Join, ParseAll, ParseInt;
    var s := Join([1, 2], sep);
    JoinPair(sep);
    if sep == [] {
      assert |Pieces(s, sep)| == 1;
      ParseAllKeepsLength(Pieces(s, sep), bits);
    } else {
      var tail := "2" + sep[..|sep| - 1];
      assert s == "1" + sep + tail;
      assert s[1..] == sep + tail && s[1..][..|sep|] == sep;
      if Find(s, sep) == Some(0) {
        EmptyPieceFails(s, sep, bits);
      } else {
        assert Find(s, sep) == Some(1) && s[1 + |sep|..] == tail;
        MisreadTail(s, sep, tail, bits);
      }
    }
  }

  lemma MisreadTail(s: string, sep: string, tail: string, bits: nat)
    requires 0 < bits && |sep| > 1 && Find(s, sep) == Some(1) && s[1 + |sep|..] == tail
    requires |tail| > 1 && tail[0] == '2'
    ensures Split(s, sep, bits) != Some([1, 2])
  {
    hide ParseAll, ParseInt, Find;
    var pieces := Pieces(s, sep);
    assert pieces == [s[..1]] + Pieces(tail, sep);
    ParseAllKeepsLength(pieces, bits);
    if Find(tail, sep) == None {
      assert pieces == [s[..1], tail];
      LastIsNotTwo(s[..1], tail, bits);
    } else {
      assert |pieces| > 2;
    }
  }

  lemma LastIsNotTwo(first: string, tail: string, bits: nat)
    requires 0 < bits && |tail| > 1 && tail[0] == '2'
    ensures ParseAll([first, tail], bits) != Some([1, 2])
  {
    if Value(tail).Some? {
      TwentyOrMore(tail);
    }
    assert ParseInt(tail, bits) != Some(2);
    var ps := [first, tail];
    assert ps[..1] == [first];
    match ParseAll(ps[..1], bits)
    case None =>
    case Some(xs) =>
      ParseAllKeepsLength(ps[..1], bits);
      var y := ParseInt(ps[1], bits);
      assert y.Some? ==> (xs + [y.value])[1] != 2;
  }
}
