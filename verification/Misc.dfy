/** The update arguments kept in misc (utils/utils.cpp): one a line, rewritten to add, change or
    remove the argument with a given head. */
module MiscMessages {
  import opened Strings
  import opened LittleEndian

  const MAX_UPDATE_SIZE := 768
  const HEAD_BUFFER_SIZE := 128
  const NEWLINE: seq<char> := ['\n']

  // ---------------------------------------------------------------- lines

  predicate IsLine(s: seq<char>) {
    '\n' !in s
  }

  /** The pieces of `s` from `start` on, between characters of `del`. */
  function Split(s: seq<char>, del: seq<char>, start: nat): (pieces: seq<seq<char>>)
    requires start <= |s|
    ensures pieces != []
    decreases |s| - start
  {
    var found := FindFirstOf(s, del, start);
    [s[start..found]] + if found == |s| then [] else Split(s, del, found + 1)
  }

  /** SplitString. The pieces hold no delimiter, and with one between each two they are the text. */
  method SplitString(str: seq<char>, del: seq<char>) returns (result: seq<seq<char>>)
    ensures result == Split(str, del, 0)
    ensures forall piece :: piece in result ==> NoneOf(piece, del)
    ensures Joins(result, del, str)
  {
    hide FindFirstOf, Split, Joins;
    SplitGives(str, del, 0);
    assert str[0..] == str;
    result := [];
    var start := 0;
    while true
      invariant 0 <= start <= |str| && result + Split(str, del, start) == Split(str, del, 0)
      decreases |str| - start
    {
      var found := FindFirstOf(str, del, start);
      SplitStep(result, str, del, start);
      result := result + [str[start..found]];
      if found == |str| {
        break;
      }
      start := found + 1;
    }
  }

  predicate NoneOf(piece: seq<char>, del: seq<char>) {
    forall c :: c in piece ==> c !in del
  }

  /** `text` is the pieces with one character of `del` between each two. */
  predicate Joins(pieces: seq<seq<char>>, del: seq<char>, text: seq<char>)
  {
    if pieces == [] then false
    else if |pieces| == 1 then text == pieces[0]
    else pieces[0] < text && text[|pieces[0]|] in del && Joins(pieces[1..], del, text[|pieces[0]| + 1..])
  }

  lemma {:induction false} SplitGives(s: seq<char>, del: seq<char>, start: nat)
    requires start <= |s|
    ensures forall piece :: piece in Split(s, del, start) ==> NoneOf(piece, del)
    ensures Joins(Split(s, del, start), del, s[start..])
    decreases |s| - start
  {
    hide FindFirstOf, Split, Joins;
    var found := FindFirstOf(s, del, start);
    var first, text := s[start..found], s[start..];
    SplitIs(s, del, start);
    assert first == text[..found - start];
    if found < |s| {
      SplitGives(s, del, found + 1);
      assert text[found - start] == s[found] && text[found - start + 1..] == s[found + 1..];
      JoinsNext(first, Split(s, del, found + 1), del, text);
    } else {
      assert first == text;
      JoinsOne(text, del);
    }
  }

  lemma JoinsOne(text: seq<char>, del: seq<char>)
    ensures Joins([text], del, text)
  {
  }

  lemma JoinsNext(first: seq<char>, rest: seq<seq<char>>, del: seq<char>, text: seq<char>)
    requires rest != [] && first < text && text[|first|] in del && Joins(rest, del, text[|first| + 1..])
    ensures Joins([first] + rest, del, text)
  {
    assert ([first] + rest)[1..] == rest;
  }

  lemma SplitIs(s: seq<char>, del: seq<char>, start: nat)
    requires start <= |s|
    ensures var found := FindFirstOf(s, del, start);
      Split(s, del, start) == if found == |s| then [s[start..found]] else [s[start..found]] + Split(s, del, found + 1)
  {
    hide FindFirstOf;
  }

  lemma SplitStep(before: seq<seq<char>>, s: seq<char>, del: seq<char>, start: nat)
    requires start <= |s|
    ensures var found := FindFirstOf(s, del, start);
      before + Split(s, del, start) == if found == |s| then before + [s[start..found]]
                                  else before + [s[start..found]] + Split(s, del, found + 1)
  {
    hide FindFirstOf, Split;
    SplitIs(s, del, start);
  }

  /** Every line, each ended by a newline. */
  function Lines(args: seq<seq<char>>): seq<char> {
    if args == [] then [] else args[0] + NEWLINE + Lines(args[1..])
  }

  lemma {:induction false} FindsNewline(s: seq<char>, start: nat, at: nat)
    requires start <= at <= |s| && (forall k :: start <= k < at ==> s[k] != '\n') && (at < |s| ==> s[at] == '\n')
    ensures FindFirstOf(s, NEWLINE, start) == at
    decreases at - start
  {
    if start < at {
      FindsNewline(s, start + 1, at);
    }
  }

  lemma {:induction false} SplitLater(before: seq<char>, s: seq<char>, start: nat)
    requires start <= |s|
    ensures Split(before + s, NEWLINE, |before| + start) == Split(s, NEWLINE, start)
    decreases |s| - start
  {
    hide FindFirstOf, Split;
    var found, all := FindFirstOf(s, NEWLINE, start), before + s;
    FindLater(before, s, start);
    SplitIs(all, NEWLINE, |before| + start);
    SplitIs(s, NEWLINE, start);
    if found < |s| {
      SplitLater(before, s, found + 1);
    }
  }

  lemma FindLater(before: seq<char>, s: seq<char>, start: nat)
    requires start <= |s|
    ensures var found, all := FindFirstOf(s, NEWLINE, start), before + s;
      && FindFirstOf(all, NEWLINE, |before| + start) == |before| + found
      && all[|before| + start..|before| + found] == s[start..found]
  {
    hide FindFirstOf;
    var found, all := FindFirstOf(s, NEWLINE, start), before + s;
    forall k | |before| + start <= k < |before| + found ensures all[k] != '\n' {
      assert all[k] == s[k - |before|];
    }
    FindsNewline(all, |before| + start, |before| + found);
  }

  /** Lines written one after the other, and an unended one, are read back. */
  lemma {:induction false} SplitOfLines(args: seq<seq<char>>, last: seq<char>)
    requires IsLine(last) && forall a :: a in args ==> IsLine(a)
    ensures Split(Lines(args) + last, NEWLINE, 0) == args + [last]
  {
    hide FindFirstOf, Split;
    if args == [] {
      assert Lines(args) + last == last && last[0..|last|] == last;
      FindsNewline(last, 0, |last|);
      SplitIs(last, NEWLINE, 0);
      assert args + [last] == [last];
    } else {
      var first, rest := args[0], Lines(args[1..]) + last;
      assert Lines(args) + last == (first + NEWLINE) + rest;
      assert IsLine(first);
      FirstLine(first, rest);
      SplitOfLines(args[1..], last);
      assert args + [last] == [first] + (args[1..] + [last]);
    }
  }

  lemma FirstLine(first: seq<char>, rest: seq<char>)
    requires IsLine(first)
    ensures Split((first + NEWLINE) + rest, NEWLINE, 0) == [first] + Split(rest, NEWLINE, 0)
  {
    hide FindFirstOf, Split;
    var s := (first + NEWLINE) + rest;
    FindsNewline(s, 0, |first|);
    SplitLater(first + NEWLINE, rest, 0);
    SplitIs(s, NEWLINE, 0);
    assert s[0..|first|] == first;
  }

  lemma {:induction false} SplitGivesLines(s: seq<char>, start: nat)
    requires start <= |s|
    ensures forall a :: a in Split(s, NEWLINE, start) ==> IsLine(a)
    decreases |s| - start
  {
    var found := FindFirstOf(s, NEWLINE, start);
    forall a | a in Split(s, NEWLINE, start) ensures IsLine(a) {
      if found < |s| {
        SplitGivesLines(s, found + 1);
      }
    }
  }

  // ---------------------------------------------------------------- arguments

  /** The arguments in which `head` does not occur. */
  function Kept(args: seq<seq<char>>, head: seq<char>): (r: seq<seq<char>>)
    ensures forall a :: a in r ==> a in args && !Contains(a, head)
  {
    if args == [] then []
    else (if Contains(args[0], head) then [] else [args[0]]) + Kept(args[1..], head)
  }

  lemma {:induction false} KeptSum(a: seq<seq<char>>, b: seq<seq<char>>, head: seq<char>)
    ensures Kept(a + b, head) == Kept(a, head) + Kept(b, head)
  {
    hide Contains, Kept;
    if a == [] {
      assert a + b == b;
      KeptNone(head);
    } else {
      KeptSum(a[1..], b, head);
      KeptFirst(a, head);
      KeptFirst(a + b, head);
      assert (a + b)[1..] == a[1..] + b;
    }
  }

  lemma KeptNone(head: seq<char>)
    ensures Kept([], head) == []
  {
  }

  lemma KeptFirst(a: seq<seq<char>>, head: seq<char>)
    requires a != []
    ensures Kept(a, head) == if Contains(a[0], head) then Kept(a[1..], head) else [a[0]] + Kept(a[1..], head)
  {
    hide Contains;
  }

  lemma {:induction false} KeptAll(args: seq<seq<char>>, head: seq<char>)
    requires forall a :: a in args ==> !Contains(a, head)
    ensures Kept(args, head) == args
  {
    if args != [] {
      KeptAll(args[1..], head);
    }
  }

  function Digits(n: nat): seq<char> {
    if n < 10 then [('0' as int + n) as char] else Digits(n / 10) + [('0' as int + n % 10) as char]
  }

  /** %lld */
  function Decimal(n: int): seq<char> {
    if n < 0 then ['-'] + Digits(-n) else Digits(n)
  }

  lemma {:induction false} DigitsAreLine(n: nat)
    ensures IsLine(Digits(n))
  {
    if 10 <= n {
      DigitsAreLine(n / 10);
    }
  }

  datatype Change = Remove | Flag | Value(message: int)

  /** The argument written for a head. */
  function Argument(head: seq<char>, change: Change): seq<char> {
    match change
    case Remove => []
    case Flag => "--" + head
    case Value(message) => "--" + head + "=" + Decimal(message)
  }

  /** As they are typed: an option, an option with a value, or nothing. */
  lemma ArgumentIs(head: seq<char>, value: int)
    ensures |Argument(head, Flag)| == |head| + 2 && Argument(head, Flag)[..2] == "--"
    ensures Argument(head, Flag)[2..] == head
    ensures Argument(head, Value(value)) == Argument(head, Flag) + "=" + Decimal(value)
    ensures Argument(head, Remove) == []
  {
  }

  lemma ArgumentIsLine(head: seq<char>, change: Change)
    requires IsLine(head)
    ensures IsLine(Argument(head, change))
    ensures !change.Remove? ==> Contains(Argument(head, change), head)
  {
    match change {
      case Remove =>
      case Flag => ContainsMore("--", head, []);
        assert "--" + head + [] == "--" + head;
      case Value(message) =>
        DigitsAreLine(if message < 0 then -message else message);
        ContainsMore("--", head, "=" + Decimal(message));
        assert "--" + head + ("=" + Decimal(message)) == "--" + head + "=" + Decimal(message);
    }
  }

  // ---------------------------------------------------------------- a number in an argument

  const U63: nat := 0x8000_0000_0000_0000

  /** A uint64_t taken as an int64_t. */
  function AsInt64(x: nat): int
    requires x < U64
  {
    if x < U63 then x else x - U64
  }

  predicate IsDigit(c: char) {
    '0' <= c <= '9'
  }

  predicate AllDigits(s: seq<char>) {
    forall k :: 0 <= k < |s| ==> IsDigit(s[k])
  }

  function Magnitude(s: seq<char>): nat
    requires AllDigits(s)
  {
    if s == [] then 0 else 10 * Magnitude(s[..|s| - 1]) + (s[|s| - 1] as int - '0' as int)
  }

  datatype Parsed = Bad | Good(value: nat)

  /** ConvertToUnsignedLongLong, that is strtoull with base 0, on decimal text: digits, perhaps
      behind a minus sign, which counts down from 2^64. Text that starts with further signs,
      blanks or a zero (octal and hexadecimal numbers) is not part of this model. */
  function ConvertToUnsignedLongLong(s: seq<char>): Parsed {
    var negative := s != [] && s[0] == '-';
    var digits := if negative then s[1..] else s;
    if digits == [] || !AllDigits(digits) || U64 <= Magnitude(digits) then Bad
    else Good(if negative then (U64 - Magnitude(digits)) % U64 else Magnitude(digits))
  }

  lemma {:induction false} DigitsMean(n: nat)
    ensures Digits(n) != [] && AllDigits(Digits(n)) && Magnitude(Digits(n)) == n
  {
    if n < 10 {
      assert Digits(n)[..0] == [];
    } else {
      DigitsMean(n / 10);
      assert Digits(n)[..|Digits(n)| - 1] == Digits(n / 10);
    }
  }

  /** An int64_t, and the same number modulo 2^64. */
  lemma AsInt64Is(x: nat)
    requires x < U64
    ensures 0 <= AsInt64(x) + U63 < U64 && AsInt64(x) % U64 == x
  {
  }

  /** A number as it is printed, a minus sign in front of what its opposite is printed as, is read
      modulo 2^64, unless it has more than 64 bits. */
  lemma DecimalRead(n: int)
    ensures n < 0 ==> Decimal(n) == "-" + Decimal(-n)
    ensures 0 <= n ==> AllDigits(Decimal(n))
    ensures ConvertToUnsignedLongLong(Decimal(n)) == if 0 < n + U64 && n < U64 then Good(n % U64) else Bad
  {
    hide Digits;
    if n < 0 {
      DigitsMean(-n);
      assert Decimal(n)[1..] == Digits(-n);
    } else {
      DigitsMean(n);
      assert Decimal(n)[0] != '-';
    }
  }

  /** Every 64-bit number that is written, through %lld, is read back, the upper half included. */
  lemma NumberReadBack(x: nat)
    requires x < U64
    ensures ConvertToUnsignedLongLong(Decimal(AsInt64(x))) == Good(x)
  {
    hide ConvertToUnsignedLongLong, Decimal;
    AsInt64Is(x);
    DecimalRead(AsInt64(x));
  }

  /** The value of the argument `--head=value` if it is there and is a number, else 0: how the
      options of the next boot are read. */
  function NumberIn(args: seq<seq<char>>, head: seq<char>): nat {
    if args == [] then 0
    else
      var last, prefix := args[|args| - 1], "--" + head + "=";
      if prefix <= last then
        var parsed := ConvertToUnsignedLongLong(last[|prefix|..]);
        if parsed.Good? then parsed.value else 0
      else NumberIn(args[..|args| - 1], head)
  }

  lemma NumberWritten(kept: seq<seq<char>>, head: seq<char>, x: nat)
    requires x < U64
    ensures NumberIn(kept + [Argument(head, Value(AsInt64(x)))], head) == x
  {
    hide ConvertToUnsignedLongLong, Decimal;
    var args, prefix := kept + [Argument(head, Value(AsInt64(x)))], "--" + head + "=";
    var last := args[|args| - 1];
    assert last == prefix + Decimal(AsInt64(x));
    assert prefix <= last && last[|prefix|..] == Decimal(AsInt64(x));
    NumberReadBack(x);
  }

  // ---------------------------------------------------------------- misc

  class Misc {
    var update: seq<char>             // up to the terminating zero
    const commandFile: seq<seq<char>> // what COMMAND_FILE holds, if there is one

    constructor (update: seq<char>, commandFile: seq<seq<char>>)
      ensures this.update == update && this.commandFile == commandFile
    {
      this.update, this.commandFile := update, commandFile;
    }

    /** What arguments are read from. */
    function Source(): seq<char>
      reads this
    {
      if update == [] && commandFile != [] then commandFile[0] else update
    }

    function Arguments(): seq<seq<char>>
      reads this
    {
      Split(Source(), NEWLINE, 0)
    }

    method ParseParams() returns (args: seq<seq<char>>)
      ensures args == Arguments()
    {
      args := SplitString(Source(), NEWLINE);
    }

    /** UpdateInfoInMisc. If the arguments fit, and misc can be written, exactly those without the
        head are kept, in order, and the new one follows them; otherwise misc is as it was. */
    method UpdateInfoInMisc(head: seq<char>, change: Change, writable: bool) returns (ok: bool)
      requires IsLine(head)
      modifies this
      ensures ok <==> head != [] && |Argument(head, change)| < HEAD_BUFFER_SIZE && writable
                      && |Lines(Kept(old(Arguments()), head)) + Argument(head, change)| < MAX_UPDATE_SIZE
      ensures ok ==> update == Lines(Kept(old(Arguments()), head)) + Argument(head, change)
      ensures ok && update != [] ==> Arguments() == Kept(old(Arguments()), head) + [Argument(head, change)]
      ensures !ok ==> update == old(update)
    {
      hide Contains, Kept, Lines, Argument;
      if head == [] {
        return false;
      }
      var args := ParseParams();
      var text;
      ok, text := JoinKept(args, head);
      var buffer := Argument(head, change);
      if !ok || HEAD_BUFFER_SIZE <= |buffer| || MAX_UPDATE_SIZE <= |text| + |buffer| || !writable {
        return false;
      }
      ArgumentIsLine(head, change);
      SplitGivesLines(Source(), 0);
      SplitOfLines(Kept(args, head), buffer);
      update := text + buffer;
    }

    /** The loop: strncat_s refuses what does not fit. */
    method JoinKept(args: seq<seq<char>>, head: seq<char>) returns (ok: bool, text: seq<char>)
      ensures ok <==> |Lines(Kept(args, head))| < MAX_UPDATE_SIZE
      ensures ok ==> text == Lines(Kept(args, head))
    {
      hide Contains, Kept, Lines;
      text := [];
      assert args[..0] == [];
      NothingKept(head);
      for i := 0 to |args|
        invariant text == Lines(Kept(args[..i], head)) && |text| < MAX_UPDATE_SIZE
      {
        KeptNext(args, i, head);
        KeptBound(args, i + 1, head);
        if !Contains(args[i], head) {
          if MAX_UPDATE_SIZE <= |text| + |args[i]| {
            return false, [];
          }
          text := text + args[i];
          if MAX_UPDATE_SIZE <= |text| + 1 {
            return false, [];
          }
          text := text + NEWLINE;
        }
      }
      assert args[..|args|] == args;
      ok := true;
    }
  }

  lemma NothingKept(head: seq<char>)
    ensures Lines(Kept([], head)) == []
  {
  }

  lemma LinesNext(args: seq<seq<char>>, a: seq<char>)
    ensures Lines(args + [a]) == Lines(args) + (a + NEWLINE)
  {
    LinesSum(args, [a]);
    assert Lines([a]) == a + NEWLINE + [];
  }

  lemma {:induction false} LinesSum(a: seq<seq<char>>, b: seq<seq<char>>)
    ensures Lines(a + b) == Lines(a) + Lines(b)
  {
    if a == [] {
      assert a + b == b;
    } else {
      LinesSum(a[1..], b);
      assert (a + b)[1..] == a[1..] + b;
    }
  }

  lemma KeptNext(args: seq<seq<char>>, i: nat, head: seq<char>)
    requires i < |args|
    ensures Lines(Kept(args[..i + 1], head))
         == if Contains(args[i], head) then Lines(Kept(args[..i], head))
             else Lines(Kept(args[..i], head)) + args[i] + NEWLINE
  {
    hide Contains, Lines;
    assert args[..i + 1] == args[..i] + [args[i]];
    KeptSum(args[..i], [args[i]], head);
    assert Kept([args[i]], head) == if Contains(args[i], head) then [] else [args[i]];
    LinesNext(Kept(args[..i], head), args[i]);
    assert Kept(args[..i], head) + [] == Kept(args[..i], head);
    assert [args[i]][1..] == [];
  }

  /** The text so far is part of the whole. */
  lemma KeptBound(args: seq<seq<char>>, i: nat, head: seq<char>)
    requires i <= |args|
    ensures |Lines(Kept(args[..i], head))| <= |Lines(Kept(args, head))|
  {
    assert args == args[..i] + args[i..];
    KeptSum(args[..i], args[i..], head);
    LinesSum(Kept(args[..i], head), Kept(args[i..], head));
  }

  /** Writing the same head again replaces its argument: the number of arguments does not grow.
      Removing it leaves an empty argument behind, one more each time. */
  lemma UpdatesSettle(args: seq<seq<char>>, head: seq<char>, change: Change)
    requires IsLine(head)
    ensures Kept(Kept(args, head) + [Argument(head, change)], head)
         == Kept(args, head) + if change.Remove? && head != [] then [[]] else []
  {
    ArgumentIsLine(head, change);
    KeptAll(Kept(args, head), head);
    KeptSum(Kept(args, head), [Argument(head, change)], head);
    var a := Argument(head, change);
    assert [a][0] == a && [a][1..] == [];
    if change.Remove? {
      assert Contains(a, head) <==> head == [];
    }
  }
}
