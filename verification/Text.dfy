// Strings as std::reverse, std::getline and std::string::find_* see them.
module Text {

  /** Blank, tab, newline, vertical tab, form feed or carriage return. */
  predicate IsSpace(c: char) {
    c == ' ' || '\t' <= c <= '\r'
  }

  /** The blanks that std::isspace and the trimming of names know, and no other character. */
  lemma BlankTable(c: char)
    ensures IsSpace(c) <==> c in [' ', '\t', '\n', '\U{0B}', '\U{0C}', '\r']
  {
  }

  function Reverse<T>(s: seq<T>): (r: seq<T>)
    ensures |r| == |s|
  {
    if s == [] then [] else Reverse(s[1..]) + [s[0]]
  }

  /** The text before the first separator, or all of it. */
  function Head(s: string, sep: char): string {
    if s == "" || s[0] == sep then "" else [s[0]] + Head(s[1..], sep)
  }

  /** The text after the first separator, or nothing. */
  function Tail(s: string, sep: char): (r: string)
    ensures s != "" ==> |r| < |s|
  {
    if s == "" then "" else if s[0] == sep then s[1..] else Tail(s[1..], sep)
  }

  /** What repeated calls of std::getline read: a final separator does not start another token. */
  function Tokens(s: string, sep: char): seq<string>
    decreases |s|
  {
    if s == "" then [] else [Head(s, sep)] + Tokens(Tail(s, sep), sep)
  }

  function Join(parts: seq<string>, sep: string): string {
    if parts == [] then "" else if |parts| == 1 then parts[0] else parts[0] + sep + Join(parts[1..], sep)
  }

  // ----- reversal -----

  lemma {:induction false} ReverseConcat<T>(a: seq<T>, b: seq<T>)
    ensures Reverse(a + b) == Reverse(b) + Reverse(a)
  {
    if a == [] {
      assert a + b == b;
    } else {
      assert (a + b)[1..] == a[1..] + b;
      ReverseConcat(a[1..], b);
    }
  }

  lemma {:induction false} ReverseTwice<T>(s: seq<T>)
    ensures Reverse(Reverse(s)) == s
  {
    if s != [] {
      ReverseConcat(Reverse(s[1..]), [s[0]]);
      assert Reverse([s[0]]) == [s[0]];
      ReverseTwice(s[1..]);
    }
  }

  lemma {:induction false} ReverseMembers<T>(s: seq<T>, x: T)
    ensures x in Reverse(s) <==> x in s
  {
    if s != [] {
      ReverseMembers(s[1..], x);
      assert s == [s[0]] + s[1..];
    }
  }

  // ----- tokens -----

  lemma {:induction false} FirstToken(a: string, rest: string, sep: char)
    requires sep !in a
    ensures Head(a + [sep] + rest, sep) == a && Tail(a + [sep] + rest, sep) == rest
  {
    var s := a + [sep] + rest;
    if a == "" {
      assert s[1..] == rest;
    } else {
      assert s[1..] == a[1..] + [sep] + rest;
      FirstToken(a[1..], rest, sep);
    }
  }

  lemma {:induction false} OnlyToken(a: string, sep: char)
    requires sep !in a
    ensures Head(a, sep) == a && Tail(a, sep) == ""
  {
    if a != "" { OnlyToken(a[1..], sep); }
  }

  lemma TokensStep(a: string, rest: string, sep: char)
    requires sep !in a
    ensures Tokens(a + [sep] + rest, sep) == [a] + Tokens(rest, sep)
  {
    FirstToken(a, rest, sep);
  }

  lemma TokensLast(a: string, sep: char)
    requires sep !in a && a != ""
    ensures Tokens(a, sep) == [a]
  {
    OnlyToken(a, sep);
  }

  lemma {:induction false} JoinSnoc(parts: seq<string>, last: string, sep: string)
    requires parts != []
    ensures Join(parts + [last], sep) == Join(parts, sep) + sep + last
  {
    if |parts| == 1 {
      assert (parts + [last])[1..] == [last];
    } else {
      assert (parts + [last])[1..] == parts[1..] + [last];
      JoinSnoc(parts[1..], last, sep);
      assert parts[0] + sep + (Join(parts[1..], sep) + sep + last)
          == parts[0] + sep + Join(parts[1..], sep) + sep + last;
    }
  }
}
