/**
 * The JavaScript string primitives the core relies on: `String.prototype.trim`,
 * `toLowerCase`, `startsWith`, `split` with a one-character separator, and
 * `parseInt(s, 10)`. A JavaScript string is modelled as a sequence of characters.
 */
module JsString {
  import opened Wrappers

  /**
   * The characters ECMAScript strips in `trim` and in the leading-whitespace step
   * of `parseInt`: WhiteSpace (TAB, VT, FF, ZWNBSP and every space separator)
   * and LineTerminator (LF, CR, LS, PS).
   */
  const WhiteSpaceChars: set<char> := {
    '\t', '\n', '\U{000B}', '\U{000C}', '\r', ' ', '\U{00A0}', '\U{1680}',
    '\U{2000}', '\U{2001}', '\U{2002}', '\U{2003}', '\U{2004}', '\U{2005}',
    '\U{2006}', '\U{2007}', '\U{2008}', '\U{2009}', '\U{200A}',
    '\U{2028}', '\U{2029}', '\U{202F}', '\U{205F}', '\U{3000}', '\U{FEFF}'
  }

  predicate IsWhiteSpace(c: char) {
    c in WhiteSpaceChars
  }

  predicate AllWhiteSpace(s: string) {
    forall i :: 0 <= i < |s| ==> IsWhiteSpace(s[i])
  }

  /** The length of the whitespace run at the front of `s`. */
  function LeadingWhiteSpace(s: string): (n: nat)
    ensures n <= |s|
    ensures forall i :: 0 <= i < n ==> IsWhiteSpace(s[i])
    ensures n < |s| ==> !IsWhiteSpace(s[n])
  {
    WhiteSpaceFrom(s, 0)
  }

  /** The end of the whitespace run of `s` that starts at `start`. */
  function WhiteSpaceFrom(s: string, start: nat): (n: nat)
    requires start <= |s|
    ensures start <= n <= |s|
    ensures forall i :: start <= i < n ==> IsWhiteSpace(s[i])
    ensures n < |s| ==> !IsWhiteSpace(s[n])
    decreases |s| - start
  {
    if start < |s| && IsWhiteSpace(s[start]) then WhiteSpaceFrom(s, start + 1) else start
  }

  /** The length of `s` without the whitespace run at its end. */
  function TextEnd(s: string): (n: nat)
    ensures n <= |s|
    ensures forall i :: n <= i < |s| ==> IsWhiteSpace(s[i])
    ensures n > 0 ==> !IsWhiteSpace(s[n - 1])
  {
    TextEndBefore(s, |s|)
  }

  /** The start of the whitespace run of `s` that ends at `end`. */
  function TextEndBefore(s: string, end: nat): (n: nat)
    requires end <= |s|
    ensures n <= end
    ensures forall i :: n <= i < end ==> IsWhiteSpace(s[i])
    ensures n > 0 ==> !IsWhiteSpace(s[n - 1])
  {
    if end > 0 && IsWhiteSpace(s[end - 1]) then TextEndBefore(s, end - 1) else end
  }

  /** The three facts above pin `LeadingWhiteSpace` down. */
  lemma LeadingWhiteSpaceUnique(s: string, n: nat)
    requires n <= |s|
    requires forall i :: 0 <= i < n ==> IsWhiteSpace(s[i])
    requires n < |s| ==> !IsWhiteSpace(s[n])
    ensures LeadingWhiteSpace(s) == n
  {
  }

  /** The three facts above pin `TextEnd` down. */
  lemma TextEndUnique(s: string, n: nat)
    requires n <= |s|
    requires forall i :: n <= i < |s| ==> IsWhiteSpace(s[i])
    requires n > 0 ==> !IsWhiteSpace(s[n - 1])
    ensures TextEnd(s) == n
  {
  }

  /** Drops leading whitespace, as the first step of `parseInt` does. */
  function TrimStart(s: string): (r: string)
    ensures |r| <= |s| && r == s[|s| - |r|..]
    ensures AllWhiteSpace(s[..|s| - |r|])
    ensures r == [] || !IsWhiteSpace(r[0])
  {
    s[LeadingWhiteSpace(s)..]
  }

  /**
   * `s.trim()`: empty exactly when `s` is whitespace only; otherwise the text
   * of `s` between its leading and its trailing whitespace, which neither
   * starts nor ends with whitespace.
   */
  function Trim(s: string): (r: string)
    ensures r == [] <==> AllWhiteSpace(s)
    ensures !AllWhiteSpace(s) ==> LeadingWhiteSpace(s) <= TextEnd(s) && r == s[LeadingWhiteSpace(s)..TextEnd(s)]
    ensures r != [] ==> !IsWhiteSpace(r[0]) && !IsWhiteSpace(r[|r| - 1])
    ensures |r| <= |s|
  {
    var start := LeadingWhiteSpace(s);
    if start == |s| then [] else s[start..TextEnd(s)]
  }

  /** Trimming is idempotent: trimmed text has no outer whitespace left. */
  lemma TrimIdempotent(s: string)
    ensures Trim(Trim(s)) == Trim(s)
  {
    var r := Trim(s);
    if r != [] {
      LeadingWhiteSpaceUnique(r, 0);
      TextEndUnique(r, |r|);
      assert !AllWhiteSpace(r) by {
        assert !IsWhiteSpace(r[0]);
      }
      assert r[0..|r|] == r;
    }
  }

  /** Surrounding whitespace never changes what `trim` returns. */
  lemma TrimIgnoresOuterWhiteSpace(pre: string, s: string, post: string)
    requires AllWhiteSpace(pre) && AllWhiteSpace(post)
    ensures Trim(pre + s + post) == Trim(s)
  {
    if LeadingWhiteSpace(s) == |s| {
      PaddedWhiteSpace(pre, s, post);
    } else {
      TrimPaddedText(pre, s, post);
    }
  }

  lemma TrimPaddedText(pre: string, s: string, post: string)
    requires AllWhiteSpace(pre) && AllWhiteSpace(post) && LeadingWhiteSpace(s) < |s|
    ensures Trim(pre + s + post) == Trim(s)
  {
    var start := LeadingWhiteSpace(s);
    var end := TextEnd(s);
    TextAfterLead(s);
    PaddedLeadingWhiteSpace(pre, s, post);
    PaddedTextEnd(pre, s, post);
    PaddedSlice(pre, s, post, start, end);
    SameText(pre + s + post, s, |pre| + start, |pre| + end, start, end);
  }

  /** Two strings that are not all whitespace and share their text trim alike. */
  lemma SameText(w: string, s: string, a: nat, b: nat, c: nat, d: nat)
    requires a == LeadingWhiteSpace(w) < |w| && b == TextEnd(w) && a <= b
    requires c == LeadingWhiteSpace(s) < |s| && d == TextEnd(s) && c <= d
    requires w[a..b] == s[c..d]
    ensures Trim(w) == Trim(s)
  {
  }

  lemma PaddedSlice(pre: string, s: string, post: string, a: nat, b: nat)
    requires a <= b <= |s|
    ensures (pre + s + post)[|pre| + a..|pre| + b] == s[a..b]
  {
    forall j | 0 <= j < b - a
      ensures (pre + s + post)[|pre| + a..|pre| + b][j] == s[a..b][j]
    {
      AtIndex(pre, s, post, |pre| + a + j);
    }
  }

  lemma PaddedWhiteSpace(pre: string, s: string, post: string)
    requires AllWhiteSpace(pre) && AllWhiteSpace(s) && AllWhiteSpace(post)
    ensures AllWhiteSpace(pre + s + post)
  {
    forall i | 0 <= i < |pre + s + post|
      ensures IsWhiteSpace((pre + s + post)[i])
    {
      AtIndex(pre, s, post, i);
    }
  }

  lemma PaddedLeadingWhiteSpace(pre: string, s: string, post: string)
    requires AllWhiteSpace(pre) && LeadingWhiteSpace(s) < |s|
    ensures LeadingWhiteSpace(pre + s + post) == |pre| + LeadingWhiteSpace(s)
  {
    var w := pre + s + post;
    var n := |pre| + LeadingWhiteSpace(s);
    forall i | 0 <= i < n
      ensures IsWhiteSpace(w[i])
    {
      AtIndex(pre, s, post, i);
    }
    AtIndex(pre, s, post, n);
    LeadingWhiteSpaceUnique(w, n);
  }

  lemma PaddedTextEnd(pre: string, s: string, post: string)
    requires AllWhiteSpace(post) && LeadingWhiteSpace(s) < |s|
    ensures TextEnd(pre + s + post) == |pre| + TextEnd(s)
  {
    var e := TextEnd(s);
    TextAfterLead(s);
    PaddedTail(pre, s, post, e);
    AtIndex(pre, s, post, |pre| + e - 1);
    TextEndUnique(pre + s + post, |pre| + e);
  }

  /** Text that does not start at the end does not end at the start. */
  lemma TextAfterLead(s: string)
    requires LeadingWhiteSpace(s) < |s|
    ensures LeadingWhiteSpace(s) < TextEnd(s)
  {
    assert !IsWhiteSpace(s[LeadingWhiteSpace(s)]);
  }

  lemma PaddedTail(pre: string, s: string, post: string, e: nat)
    requires e <= |s| && AllWhiteSpace(post)
    requires forall i :: e <= i < |s| ==> IsWhiteSpace(s[i])
    ensures forall i :: |pre| + e <= i < |pre + s + post| ==> IsWhiteSpace((pre + s + post)[i])
  {
    forall i | |pre| + e <= i < |pre + s + post|
      ensures IsWhiteSpace((pre + s + post)[i])
    {
      AtIndex(pre, s, post, i);
    }
  }

  /** Where the characters of `pre + s + post` come from. */
  lemma AtIndex(pre: string, s: string, post: string, i: int)
    requires 0 <= i < |pre| + |s| + |post|
    ensures i < |pre| ==> (pre + s + post)[i] == pre[i]
    ensures |pre| <= i < |pre| + |s| ==> (pre + s + post)[i] == s[i - |pre|]
    ensures |pre| + |s| <= i ==> (pre + s + post)[i] == post[i - |pre| - |s|]
  {
  }

  /** ASCII upper-case letters map to lower case; every other character is unchanged. */
  function LowerChar(c: char): (lowered: char) {
    if 'A' <= c <= 'Z' then (c as int - 'A' as int + 'a' as int) as char else c
  }

  /** `s.toLowerCase()` on the ASCII letters: same length, every upper-case letter lowered, nothing else touched. */
  function ToLowerCase(s: string): (r: string)
    ensures |r| == |s|
    ensures forall i :: 0 <= i < |s| ==> r[i] == LowerChar(s[i])
    ensures forall i :: 0 <= i < |r| ==> !('A' <= r[i] <= 'Z')
  {
    seq(|s|, i requires 0 <= i < |s| => LowerChar(s[i]))
  }

  /** Lowering is idempotent. */
  lemma ToLowerCaseIdempotent(s: string)
    ensures ToLowerCase(ToLowerCase(s)) == ToLowerCase(s)
  {
  }

  /** `trim` and `toLowerCase` commute, since lowering never turns whitespace into a letter or back. */
  lemma TrimLowerCommute(s: string)
    ensures ToLowerCase(Trim(s)) == Trim(ToLowerCase(s))
  {
    var l := ToLowerCase(s);
    var start := LeadingWhiteSpace(s);
    var end := TextEnd(s);
    LowerLeadingWhiteSpace(s);
    LowerTextEnd(s);
    if start < |s| {
      LowerSlice(s, start, end);
    }
  }

  lemma LowerSlice(s: string, a: nat, b: nat)
    requires a <= b <= |s|
    ensures ToLowerCase(s[a..b]) == ToLowerCase(s)[a..b]
  {
  }

  lemma LowerLeadingWhiteSpace(s: string)
    ensures LeadingWhiteSpace(ToLowerCase(s)) == LeadingWhiteSpace(s)
  {
    LowerPreservesWhiteSpace();
    LeadingWhiteSpaceUnique(ToLowerCase(s), LeadingWhiteSpace(s));
  }

  lemma LowerTextEnd(s: string)
    ensures TextEnd(ToLowerCase(s)) == TextEnd(s)
  {
    LowerPreservesWhiteSpace();
    TextEndUnique(ToLowerCase(s), TextEnd(s));
  }

  lemma LowerPreservesWhiteSpace()
    ensures forall c :: IsWhiteSpace(LowerChar(c)) == IsWhiteSpace(c)
  {
  }

  /** `s.startsWith(prefix)`: `s` is `prefix` followed by some rest. */
  function StartsWith(s: string, prefix: string): (starts: bool)
    ensures starts <==> exists rest :: s == prefix + rest
  {
    assert |prefix| <= |s| ==> s == s[..|prefix|] + s[|prefix|..];
    |prefix| <= |s| && s[..|prefix|] == prefix
  }

  /** `s.split(sep)` for a one-character separator: the pieces between occurrences of `sep`. */
  function Split(s: string, sep: char): (parts: seq<string>)
    ensures |parts| >= 1
    decreases |s|
  {
    if s == [] then [""]
    else
      var rest := Split(s[1..], sep);
      if s[0] == sep then [""] + rest
      else [[s[0]] + rest[0]] + rest[1..]
  }

  /** The inverse of `Split`: the pieces glued back together with `sep` between them. */
  function Join(parts: seq<string>, sep: char): (joined: string)
    requires |parts| >= 1
    decreases |parts|
  {
    if |parts| == 1 then parts[0] else parts[0] + [sep] + Join(parts[1..], sep)
  }

  /** Splitting loses nothing: the pieces join back to `s`. */
  lemma {:induction false} SplitJoin(s: string, sep: char)
    ensures Join(Split(s, sep), sep) == s
    decreases |s|
  {
    if s != [] {
      SplitJoin(s[1..], sep);
      if s[0] == sep {
        JoinAfterSeparator(s, sep);
      } else {
        JoinAfterChar(s, sep);
      }
    }
  }

  lemma JoinAfterSeparator(s: string, sep: char)
    requires s != [] && s[0] == sep && Join(Split(s[1..], sep), sep) == s[1..]
    ensures Join(Split(s, sep), sep) == s
  {
    var rest := Split(s[1..], sep);
    assert Split(s, sep) == [""] + rest;
    JoinCons("", rest, sep);
    assert s == [sep] + s[1..];
  }

  lemma JoinAfterChar(s: string, sep: char)
    requires s != [] && s[0] != sep && Join(Split(s[1..], sep), sep) == s[1..]
    ensures Join(Split(s, sep), sep) == s
  {
    var rest := Split(s[1..], sep);
    assert Split(s, sep) == [[s[0]] + rest[0]] + rest[1..];
    JoinExtendsFirst(s[0], rest, sep);
    assert s == [s[0]] + s[1..];
  }

  /** Putting a character in front of the first piece puts it in front of the join. */
  lemma JoinExtendsFirst(c: char, parts: seq<string>, sep: char)
    requires |parts| >= 1
    ensures Join([[c] + parts[0]] + parts[1..], sep) == [c] + Join(parts, sep)
  {
    var head := [c] + parts[0];
    if |parts| == 1 {
      assert [head] + parts[1..] == [head];
    } else {
      JoinCons(head, parts[1..], sep);
      assert parts == [parts[0]] + parts[1..];
      JoinCons(parts[0], parts[1..], sep);
    }
  }

  /** Joining a piece in front of other pieces. */
  lemma JoinCons(x: string, rest: seq<string>, sep: char)
    requires |rest| >= 1
    ensures Join([x] + rest, sep) == x + [sep] + Join(rest, sep)
  {
    assert ([x] + rest)[1..] == rest;
  }

  /** No piece of a split contains the separator. */
  lemma {:induction false} SplitPiecesAvoidSeparator(s: string, sep: char)
    ensures forall i :: 0 <= i < |Split(s, sep)| ==> sep !in Split(s, sep)[i]
    decreases |s|
  {
    if s != [] {
      SplitPiecesAvoidSeparator(s[1..], sep);
      var rest := Split(s[1..], sep);
      var parts := Split(s, sep);
      if s[0] == sep {
        assert parts[1..] == rest;
        assert forall i :: 1 <= i < |parts| ==> parts[i] == rest[i - 1];
      } else {
        assert forall i :: 1 <= i < |parts| ==> parts[i] == rest[i];
        assert sep !in [s[0]] + rest[0];
      }
    }
  }

  /** A split yields one more piece than there are separators. */
  lemma {:induction false} SplitCount(s: string, sep: char)
    ensures |Split(s, sep)| == multiset(s)[sep] + 1
    decreases |s|
  {
    if s != [] {
      SplitCount(s[1..], sep);
      assert s == [s[0]] + s[1..];
      assert multiset(s) == multiset{s[0]} + multiset(s[1..]);
    }
  }

  /** Splitting pieces that hold no separator gives the pieces back. */
  lemma {:induction false} JoinSplit(parts: seq<string>, sep: char)
    requires |parts| >= 1
    requires forall i :: 0 <= i < |parts| ==> sep !in parts[i]
    ensures Split(Join(parts, sep), sep) == parts
    decreases |parts|
  {
    if |parts| == 1 {
      SplitWithout(parts[0], sep, []);
      assert parts[0] + [] == parts[0];
      assert Split([], sep) == [""];
      assert parts[0] + "" == parts[0];
    } else {
      JoinSplit(parts[1..], sep);
      var tail := [sep] + Join(parts[1..], sep);
      assert parts[0] + [sep] + Join(parts[1..], sep) == parts[0] + tail;
      SplitWithout(parts[0], sep, tail);
      assert Split(tail, sep) == [""] + parts[1..] by {
        assert tail[0] == sep;
        assert tail[1..] == Join(parts[1..], sep);
      }
      var r := Split(tail, sep);
      assert r[0] == "" && r[1..] == parts[1..];
      assert parts[0] + r[0] == parts[0];
      assert parts == [parts[0]] + parts[1..];
    }
  }

  /** A separator-free `a` in front of `rest` only extends the first piece of `rest`. */
  lemma {:induction false} SplitWithout(a: string, sep: char, rest: string)
    requires sep !in a
    ensures Split(a + rest, sep) == [a + Split(rest, sep)[0]] + Split(rest, sep)[1..]
    decreases |a|
  {
    if a != [] {
      assert (a + rest)[1..] == a[1..] + rest;
      assert (a + rest)[0] == a[0] != sep;
      SplitWithout(a[1..], sep, rest);
      assert [a[0]] + (a[1..] + Split(rest, sep)[0]) == a + Split(rest, sep)[0];
    } else {
      var r := Split(rest, sep);
      assert a + rest == rest;
      assert a + r[0] == r[0];
      assert r == [r[0]] + r[1..];
    }
  }

  /** Two pieces: `Split(a + [sep] + b) == [a, b]` when neither piece holds the separator. */
  lemma SplitTwo(a: string, sep: char, b: string)
    requires sep !in a && sep !in b
    ensures Split(a + [sep] + b, sep) == [a, b]
  {
    JoinSplit([a, b], sep);
    assert Join([a, b], sep) == a + [sep] + Join([b], sep);
  }

  predicate IsDigit(c: char) { '0' <= c <= '9' }

  predicate AllDigits(s: string) { forall i :: 0 <= i < |s| ==> IsDigit(s[i]) }

  /** The longest prefix of `s` made of decimal digits. */
  function DigitPrefix(s: string): (r: string)
    ensures |r| <= |s| && r == s[..|r|]
    ensures AllDigits(r)
    ensures |r| < |s| ==> !IsDigit(s[|r|])
    decreases |s|
  {
    if s != [] && IsDigit(s[0]) then [s[0]] + DigitPrefix(s[1..]) else []
  }

  /** The value of one decimal digit. */
  function DigitValue(c: char): (v: nat)
    ensures IsDigit(c) ==> v == c as int - '0' as int && v < 10
  {
    if IsDigit(c) then c as int - '0' as int else 0
  }

  /** The value of a string of decimal digits, most significant first. */
  function DigitsValue(d: string): (n: nat)
    decreases |d|
  {
    if d == [] then 0 else DigitsValue(d[..|d| - 1]) * 10 + DigitValue(d[|d| - 1])
  }

  /**
   * `parseInt(s, 10)`, with NaN as None: leading whitespace is skipped, then
   * the sign and digits are read by `ParseSigned`.
   */
  function ParseInt(s: string): (r: Option<int>)
  {
    ParseSigned(TrimStart(s))
  }

  /**
   * One optional `+` or `-`, then the digits read by `ParseDigits`; a minus
   * sign negates their value.
   */
  function ParseSigned(t: string): (r: Option<int>)
  {
    if t != [] && t[0] == '-' then
      match ParseDigits(t[1..])
      case None => None
      case Some(n) => Some(-n)
    else if t != [] && t[0] == '+' then ParseDigits(t[1..])
    else ParseDigits(t)
  }

  /** The longest run of decimal digits at the front of `u`; with no digit there the result is NaN. Anything after it is ignored. */
  function ParseDigits(u: string): (r: Option<int>)
  {
    var digits := DigitPrefix(u);
    if digits == [] then None else Some(DigitsValue(digits))
  }

  /** `u` begins with a decimal digit. */
  predicate StartsWithDigit(u: string) {
    u != [] && IsDigit(u[0])
  }

  /** `t` without the one `+` or `-` sign it may begin with. */
  function Unsigned(t: string): string {
    if t != [] && (t[0] == '-' || t[0] == '+') then t[1..] else t
  }

  /** The decimal numeral of `n`, with no leading zeros. */
  function ToDecimal(n: nat): (s: string)
    ensures s != [] && AllDigits(s)
    ensures DigitsValue(s) == n
  {
    if n < 10 then [('0' as int + n) as char]
    else
      var s := ToDecimal(n / 10) + [('0' as int + n % 10) as char];
      assert s[..|s| - 1] == ToDecimal(n / 10);
      s
  }

  /** Leading zeros do not change the value of a numeral. */
  lemma {:induction false} LeadingZero(d: string)
    ensures DigitsValue("0" + d) == DigitsValue(d)
    decreases |d|
  {
    if d != [] {
      var z := "0" + d;
      assert z[..|z| - 1] == "0" + d[..|d| - 1];
      LeadingZero(d[..|d| - 1]);
    }
  }

  /** A string of digits is its own longest digit prefix. */
  lemma {:induction false} DigitPrefixAll(d: string)
    requires AllDigits(d)
    ensures DigitPrefix(d) == d
    decreases |d|
  {
    if d != [] {
      DigitPrefixAll(d[1..]);
      assert d == [d[0]] + d[1..];
    }
  }

  /** `parseInt` reads a numeral back as its value. */
  lemma ReadNumeral(d: string)
    requires d != [] && AllDigits(d)
    ensures ParseInt(d) == Some(DigitsValue(d))
  {
    NoLeadingWhiteSpace(d);
    UnsignedDigits(d);
    ParseDigitsAll(d);
  }

  /** A minus sign in front of a numeral negates the value `parseInt` reads. */
  lemma ReadNegatedNumeral(t: string, d: string)
    requires d != [] && AllDigits(d)
    requires |t| == |d| + 1 && t[0] == '-' && t[1..] == d
    ensures ParseInt(t) == Some(-(DigitsValue(d) as int))
  {
    NoLeadingWhiteSpace(t);
    ParseDigitsAll(d);
    MinusSign(t, DigitsValue(d));
  }

  /** Text starting with neither whitespace, a sign nor a digit is NaN to `parseInt`. */
  lemma ParseIntNoDigits(t: string)
    requires t != [] && !IsWhiteSpace(t[0]) && !IsDigit(t[0]) && t[0] != '-' && t[0] != '+'
    ensures ParseInt(t) == None
  {
  }

  lemma NoLeadingWhiteSpace(t: string)
    requires t != [] && (IsDigit(t[0]) || t[0] == '-')
    ensures TrimStart(t) == t
  {
  }

  lemma UnsignedDigits(t: string)
    requires t != [] && IsDigit(t[0])
    ensures ParseSigned(t) == ParseDigits(t)
  {
  }

  lemma MinusSign(t: string, v: nat)
    requires t != [] && t[0] == '-' && ParseDigits(t[1..]) == Some(v)
    ensures ParseSigned(t) == Some(-(v as int))
  {
  }

  lemma ParseDigitsAll(d: string)
    requires d != [] && AllDigits(d)
    ensures ParseDigits(d) == Some(DigitsValue(d))
  {
    DigitPrefixAll(d);
  }

  /**
   * `parseInt` is NaN exactly when, after the leading whitespace and at most
   * one sign, no digit follows; a negative result comes only from a minus sign.
   */
  lemma ParseIntNaN(s: string)
    ensures ParseInt(s).None? <==> !StartsWithDigit(Unsigned(TrimStart(s)))
    ensures ParseInt(s).Some? && ParseInt(s).value < 0 ==> TrimStart(s) != [] && TrimStart(s)[0] == '-'
  {
  }

  /**
   * The general shape `parseInt` reads: leading whitespace, at most one sign,
   * a run of digits, and anything after it that does not start with a digit
   * (`" +5"` is 5, `"12abc"` is 12).
   */
  lemma ParseIntShape(ws: string, sign: string, d: string, rest: string)
    requires AllWhiteSpace(ws) && (sign == "" || sign == "+" || sign == "-")
    requires d != [] && AllDigits(d) && !StartsWithDigit(rest)
    ensures ParseInt(ws + sign + d + rest) == Some(if sign == "-" then -(DigitsValue(d) as int) else DigitsValue(d))
  {
    var u := d + rest;
    var t := sign + u;
    assert ws + sign + d + rest == ws + t;
    SignedText(sign, u);
    ParseIntAfterWhiteSpace(ws, t);
    SignedShape(sign, d, rest);
  }

  lemma ParseIntAfterWhiteSpace(ws: string, t: string)
    requires AllWhiteSpace(ws) && t != [] && !IsWhiteSpace(t[0])
    ensures ParseInt(ws + t) == ParseSigned(t)
  {
    ShapeAfterWhiteSpace(ws, t);
  }

  /** A sign or a digit in front is not whitespace. */
  lemma SignedText(sign: string, u: string)
    requires (sign == "" || sign == "+" || sign == "-") && StartsWithDigit(u)
    ensures sign + u != [] && !IsWhiteSpace((sign + u)[0])
  {
  }

  /** `ParseSigned` reads one sign and then the digits up to the first non-digit. */
  lemma SignedShape(sign: string, d: string, rest: string)
    requires (sign == "" || sign == "+" || sign == "-") && d != [] && AllDigits(d) && !StartsWithDigit(rest)
    ensures sign == "-" ==> ParseSigned(sign + (d + rest)) == Some(-(DigitsValue(d) as int))
    ensures sign != "-" ==> ParseSigned(sign + (d + rest)) == Some(DigitsValue(d) as int)
  {
    var u := d + rest;
    DigitsAhead(d, rest);
    if sign == "" {
      NoSign(u);
    } else if sign == "+" {
      SignAhead('+', u);
    } else {
      SignAhead('-', u);
    }
  }

  lemma DigitsAhead(d: string, rest: string)
    requires d != [] && AllDigits(d) && !StartsWithDigit(rest)
    ensures StartsWithDigit(d + rest) && ParseDigits(d + rest) == Some(DigitsValue(d) as int)
  {
    DigitPrefixOf(d, rest);
  }

  lemma NoSign(u: string)
    requires StartsWithDigit(u)
    ensures ParseSigned("" + u) == ParseDigits(u)
  {
    assert "" + u == u;
  }

  /** What `ParseSigned` sees behind a sign character. */
  lemma SignAhead(c: char, u: string)
    requires (c == '-' || c == '+') && StartsWithDigit(u)
    ensures ParseSigned([c] + u) == if c == '-' then Option.Some(-(ParseDigits(u).value)) else ParseDigits(u)
  {
    var t := [c] + u;
    assert t[0] == c && t[1..] == u;
  }

  /** Leading whitespace is skipped up to a text that does not start with whitespace. */
  lemma ShapeAfterWhiteSpace(ws: string, t: string)
    requires AllWhiteSpace(ws) && t != [] && !IsWhiteSpace(t[0])
    ensures ws + t == (ws + t)[..|ws|] + t && TrimStart(ws + t) == t
  {
    var w := ws + t;
    assert forall i :: 0 <= i < |ws| ==> IsWhiteSpace(w[i]);
    assert w[|ws|] == t[0];
    LeadingWhiteSpaceUnique(w, |ws|);
    assert w[|ws|..] == t;
  }

  /** The digit prefix of a numeral followed by a non-digit is the numeral. */
  lemma {:induction false} DigitPrefixOf(d: string, rest: string)
    requires AllDigits(d) && !StartsWithDigit(rest)
    ensures DigitPrefix(d + rest) == d
    decreases |d|
  {
    if d != [] {
      DigitPrefixOf(d[1..], rest);
      assert (d + rest)[1..] == d[1..] + rest;
    } else {
      assert d + rest == rest;
    }
  }

  /** `parseInt` inverts `ToDecimal`. */
  lemma ParseIntToDecimal(n: nat)
    ensures ParseInt(ToDecimal(n)) == Some(n)
  {
    ReadNumeral(ToDecimal(n));
  }
}
