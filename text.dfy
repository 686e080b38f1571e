/** String helpers the price service relies on: Go's `strings.ToUpper`
    (on ASCII and Latin-1 letters, and the two further letters that
    upper-case into ASCII) and `strings.Join`, with `Split` as the inverse
    that shows a joined id list can be read back. */
module Text {

  /** Unicode's simple upper-case mapping as `unicode.ToUpper` applies it,
      for ASCII, for Latin-1 and for the only two letters outside them
      whose capital is an ASCII letter: dotless i and long s. */
  function UpperChar(c: char): (u: char)
    ensures 'a' <= c <= 'z' ==> u as int == c as int - 32
    ensures c == '\U{131}' ==> u == 'I'
    ensures c == '\U{17F}' ==> u == 'S'
    ensures c < '\U{80}' && !('a' <= c <= 'z') ==> u == c
  {
    if 'a' <= c <= 'z' then (c as int - 32) as char
    else if c == '\U{131}' then 'I'
    else if c == '\U{17F}' then 'S'
    else if c == '\U{B5}' then '\U{39C}'
    else if '\U{E0}' <= c <= '\U{FE}' && c != '\U{F7}' then (c as int - 32) as char
    else if c == '\U{FF}' then '\U{178}'
    else c
  }

  /** `strings.ToUpper`: each character is mapped to its upper-case form,
      every character without one is kept. */
  function ToUpper(s: string): (u: string)
    ensures |u| == |s|
    ensures forall i :: 0 <= i < |s| ==> u[i] == UpperChar(s[i])
  {
    seq(|s|, i requires 0 <= i < |s| => UpperChar(s[i]))
  }

  /** The only characters that upper-case to a given ASCII capital are that
      capital, its ASCII lower-case form, and for I and S the dotless i and
      the long s. */
  lemma UpperCharInverse(c: char, cap: char)
    requires 'A' <= cap <= 'Z'
    ensures UpperChar(c) == cap <==>
      c == cap || c == (cap as int + 32) as char ||
      (cap == 'I' && c == '\U{131}') || (cap == 'S' && c == '\U{17F}')
  {
  }

  /** A symbol upper-cases to "IDR" exactly when it spells i-d-r in any
      mixture of cases, the dotless i counting as an i. */
  lemma {:induction false} IsIdrInAnyCase(s: string)
    ensures ToUpper(s) == "IDR" <==>
      |s| == 3 && s[0] in "iI\U{131}" && s[1] in "dD" && s[2] in "rR"
  {
    if |s| == 3 {
      UpperCharInverse(s[0], 'I');
      UpperCharInverse(s[1], 'D');
      UpperCharInverse(s[2], 'R');
      var u := ToUpper(s);
      assert u == [UpperChar(s[0]), UpperChar(s[1]), UpperChar(s[2])];
    }
  }

  /** `strings.Join(parts, sep)`. */
  function Join(parts: seq<string>, sep: string): string {
    if |parts| == 0 then ""
    else if |parts| == 1 then parts[0]
    else parts[0] + sep + Join(parts[1..], sep)
  }

  /** Splitting on a single character: the reference inverse of `Join`. */
  function Split(s: string, sep: char): (parts: seq<string>)
    ensures |parts| >= 1
  {
    if s == [] then [""]
    else if s[0] == sep then [""] + Split(s[1..], sep)
    else
      var rest := Split(s[1..], sep);
      [[s[0]] + rest[0]] + rest[1..]
  }

  lemma {:induction false} SplitAfterPart(part: string, sep: char, rest: string)
    requires sep !in part
    ensures Split(part + [sep] + rest, sep) == [part] + Split(rest, sep)
  {
    if part == [] {
      assert part + [sep] + rest == [sep] + rest;
    } else {
      assert (part + [sep] + rest)[1..] == part[1..] + [sep] + rest;
      SplitAfterPart(part[1..], sep, rest);
      assert [part[0]] + part[1..] == part;
    }
  }

  lemma {:induction false} SplitWhole(part: string, sep: char)
    requires sep !in part
    ensures Split(part, sep) == [part]
  {
    if part != [] {
      SplitWhole(part[1..], sep);
      assert [part[0]] + part[1..] == part;
    }
  }

  /** Joining a non-empty list of separator-free parts and splitting the
      result gives the parts back. */
  lemma {:induction false} SplitJoin(parts: seq<string>, sep: char)
    requires |parts| >= 1
    requires forall i :: 0 <= i < |parts| ==> sep !in parts[i]
    ensures Split(Join(parts, [sep]), sep) == parts
  {
    if |parts| == 1 {
      SplitWhole(parts[0], sep);
    } else {
      SplitJoin(parts[1..], sep);
      SplitAfterPart(parts[0], sep, Join(parts[1..], [sep]));
      assert [parts[0]] + parts[1..] == parts;
    }
  }
}
