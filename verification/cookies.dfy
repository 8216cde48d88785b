/**
  The browser's cookie jar as the storage layer sees it: the string the
  `document.cookie` getter returns, the way an assignment to `document.cookie`
  is read (the name-value pair steps of section 5.2 of RFC 6265: the pair
  before the first ';', split at its first '=', each half stripped of spaces
  and tabs, an empty name ignored; the attributes are not interpreted), and
  the source's own loop that reads a cookie back by splitting the getter's
  string on ';' and each piece on '='. The jar holds one cookie per name: the
  model has a single path and domain.
*/
module Cookies {
  import opened Wrappers
  import opened Text

  datatype Cookie = Cookie(name: string, value: string)

  /** No whitespace, no ';' and no '=' anywhere: a cookie-name token. */
  predicate ValidName(n: string) {
    n != [] && forall i :: 0 <= i < |n| ==> !IsWhitespace(n[i]) && n[i] != ';' && n[i] != '='
  }

  /** No whitespace and no ';' anywhere; '=' is allowed in a value. */
  predicate ValidValue(v: string) {
    forall i :: 0 <= i < |v| ==> !IsWhitespace(v[i]) && v[i] != ';'
  }

  /** The value of the cookie called `name`, if the jar holds one. */
  function Lookup(jar: seq<Cookie>, name: string): Option<string> {
    if |jar| == 0 then None
    else if jar[0].name == name then Some(jar[0].value)
    else Lookup(jar[1..], name)
  }

  /** Every cookie well formed, and no name held twice (one path, one domain). */
  predicate WellFormed(jar: seq<Cookie>) {
    |jar| == 0 ||
    (&& ValidName(jar[0].name)
     && ValidValue(jar[0].value)
     && Lookup(jar[1..], jar[0].name).None?
     && WellFormed(jar[1..]))
  }

  /** `name=value`. */
  function Pair(c: Cookie): string {
    c.name + "=" + c.value
  }

  /** The `document.cookie` getter: the pairs joined by "; ". */
  function Header(jar: seq<Cookie>): string {
    if |jar| == 0 then ""
    else if |jar| == 1 then Pair(jar[0])
    else Pair(jar[0]) + "; " + Header(jar[1..])
  }

  /** Storing a live cookie: it replaces the cookie of the same name in place,
      or is appended when there is none. */
  function Put(jar: seq<Cookie>, c: Cookie): (r: seq<Cookie>)
    ensures Lookup(r, c.name) == Some(c.value)
    ensures forall n :: n != c.name ==> Lookup(r, n) == Lookup(jar, n)
    ensures WellFormed(jar) && ValidName(c.name) && ValidValue(c.value) ==> WellFormed(r)
  {
    if |jar| == 0 then [c]
    else if jar[0].name == c.name then [c] + jar[1..]
    else
      var rest := Put(jar[1..], c);
      assert ([jar[0]] + rest)[1..] == rest;
      [jar[0]] + rest
  }

  /** Storing an already-expired cookie: any cookie of that name is removed. */
  function Remove(jar: seq<Cookie>, name: string): (r: seq<Cookie>)
    ensures Lookup(r, name).None?
    ensures forall n :: n != name ==> Lookup(r, n) == Lookup(jar, n)
    ensures WellFormed(jar) ==> WellFormed(r)
  {
    if |jar| == 0 then []
    else if jar[0].name == name then Remove(jar[1..], name)
    else
      var rest := Remove(jar[1..], name);
      assert ([jar[0]] + rest)[1..] == rest;
      [jar[0]] + rest
  }

  /** The string assigned to `document.cookie` to store `name=value`. */
  function Assignment(name: string, value: string, attributes: string): string {
    name + "=" + value + "; " + attributes
  }

  /** The whitespace RFC 6265 strips around a name or value: space and tab. */
  predicate IsWsp(c: char) {
    c == ' ' || c == '\t'
  }

  /** `s` without its leading and trailing spaces and tabs. */
  function StripWsp(s: string): (r: string)
    ensures |r| <= |s|
    ensures |r| > 0 ==> !IsWsp(r[0]) && !IsWsp(r[|r| - 1])
    ensures (forall i :: 0 <= i < |s| ==> !IsWsp(s[i])) ==> r == s
    decreases |s|
  {
    if |s| > 0 && IsWsp(s[0]) then StripWsp(s[1..])
    else if |s| > 0 && IsWsp(s[|s| - 1]) then StripWsp(s[..|s| - 1])
    else s
  }

  /** How the browser reads the cookie out of an assignment: the pair before
      the first ';', split at its first '=', both halves stripped; an
      assignment whose pair has no '=' or whose name is empty is ignored. */
  function ParseAssignment(s: string): Option<Cookie> {
    var pair := FirstSegment(s, ';');
    var i := IndexOf(pair, '=');
    if i == |pair| then None
    else
      var name := StripWsp(pair[..i]);
      if name == "" then None else Some(Cookie(name, StripWsp(pair[i + 1..])))
  }

  /** An assignment of a valid name and value is read back as exactly that
      cookie, whatever attributes follow: the value cannot leak into them. */
  lemma AssignmentRecovered(name: string, value: string, attributes: string)
    requires ValidName(name) && ValidValue(value)
    ensures ParseAssignment(Assignment(name, value, attributes)) == Some(Cookie(name, value))
  {
    var pair := name + "=" + value;
    assert ';' !in pair by {
      forall i | 0 <= i < |pair| ensures pair[i] != ';' {
        if i < |name| { assert pair[i] == name[i]; }
        else if i > |name| { assert pair[i] == value[i - |name| - 1]; }
      }
    }
    assert Assignment(name, value, attributes) == pair + [';'] + (" " + attributes);
    SplitConcat(pair, " " + attributes, ';');
    SplitAbsent(pair, ';');
    assert FirstSegment(Assignment(name, value, attributes), ';') == pair;
    IndexOfAfter(name, '=', value);
    assert pair[..|name|] == name;
    assert pair[|name| + 1..] == value;
    StripNoWhitespace(name);
    StripNoWhitespace(value);
  }

  lemma StripNoWhitespace(s: string)
    requires forall i :: 0 <= i < |s| ==> !IsWhitespace(s[i])
    ensures StripWsp(s) == s
  {
    assert forall i :: 0 <= i < |s| ==> !IsWsp(s[i]);
  }

  /** The source's read loop: for each ';'-piece, trim it, split it on '=',
      and take the first piece whose name part is `name` and whose value part
      (the text between the first and second '=') is non-empty. A missing
      value part is `undefined`, as falsy as the empty string. */
  function FindValue(pieces: seq<string>, name: string): Option<string> {
    if |pieces| == 0 then None
    else
      var (n, value) := NameAndValue(pieces[0]);
      if n == name && value != "" then Some(value) else FindValue(pieces[1..], name)
  }

  /** `const [name, value] = piece.trim().split("=")`. */
  function NameAndValue(piece: string): (string, string) {
    var kv := Split(Trim(piece), '=');
    (kv[0], if |kv| > 1 then kv[1] else "")
  }

  /** What the read loop finds in the jar for `name`: the stored value cut at
      its first '=', when that is non-empty. */
  function Visible(jar: seq<Cookie>, name: string): Option<string> {
    match Lookup(jar, name)
    case None => None
    case Some(v) => if FirstSegment(v, '=') != "" then Some(FirstSegment(v, '=')) else None
  }

  lemma PairShape(c: Cookie)
    requires ValidName(c.name) && ValidValue(c.value)
    ensures ';' !in Pair(c)
    ensures IsTrimmed(Pair(c))
    ensures Split(Pair(c), '=') == [c.name] + Split(c.value, '=')
  {
    PairNoSemicolon(c);
    PairTrimmed(c);
    PairSplit(c);
  }

  lemma PairNoSemicolon(c: Cookie)
    requires ValidName(c.name) && ValidValue(c.value)
    ensures ';' !in Pair(c)
  {
    var p := Pair(c);
    forall i | 0 <= i < |p| ensures p[i] != ';' {
      if i < |c.name| { assert p[i] == c.name[i]; }
      else if i > |c.name| { assert p[i] == c.value[i - |c.name| - 1]; }
    }
  }

  lemma PairTrimmed(c: Cookie)
    requires ValidName(c.name) && ValidValue(c.value)
    ensures IsTrimmed(Pair(c))
  {
    var p := Pair(c);
    assert p[0] == c.name[0];
    if c.value != [] { assert p[|p| - 1] == c.value[|c.value| - 1]; }
  }

  lemma PairSplit(c: Cookie)
    requires ValidName(c.name)
    ensures Split(Pair(c), '=') == [c.name] + Split(c.value, '=')
  {
    SplitConcat(c.name, c.value, '=');
    SplitAbsent(c.name, '=');
  }

  /** One ';'-piece of the getter's string, with its leading space: the read
      loop takes it when its name matches and its value part is non-empty, and
      moves on to the next piece otherwise. */
  lemma ReadOnePiece(c: Cookie, lead: string, more: seq<string>, name: string)
    requires ValidName(c.name) && ValidValue(c.value)
    requires lead == "" || lead == " "
    ensures FindValue([lead + Pair(c)] + more, name)
         == if c.name == name && FirstSegment(c.value, '=') != "" then Some(FirstSegment(c.value, '='))
            else FindValue(more, name)
  {
    PieceOfPair(c, lead);
    FindValueCons(lead + Pair(c), more, name);
  }

  lemma FindValueCons(x: string, more: seq<string>, name: string)
    ensures FindValue([x] + more, name)
         == if NameAndValue(x).0 == name && NameAndValue(x).1 != "" then Some(NameAndValue(x).1)
            else FindValue(more, name)
  {
    assert ([x] + more)[0] == x && ([x] + more)[1..] == more;
  }

  /** A piece of the getter's string, with or without its leading space,
      splits back into the cookie's name and its value cut at the first '='. */
  lemma PieceOfPair(c: Cookie, lead: string)
    requires ValidName(c.name) && ValidValue(c.value)
    requires lead == "" || lead == " "
    ensures NameAndValue(lead + Pair(c)) == (c.name, FirstSegment(c.value, '='))
  {
    TrimLeadPair(c, lead);
    SplitPair(c);
  }

  lemma TrimLeadPair(c: Cookie, lead: string)
    requires ValidName(c.name) && ValidValue(c.value)
    requires lead == "" || lead == " "
    ensures Trim(lead + Pair(c)) == Pair(c)
  {
    PairTrimmed(c);
    TrimLead(lead, Pair(c));
  }

  /** Trimming drops the optional leading space of a trimmed piece. */
  lemma TrimLead(lead: string, m: string)
    requires lead == "" || lead == " "
    requires IsTrimmed(m)
    ensures Trim(lead + m) == m
  {
    assert AllWhitespace(lead) by {
      if lead == " " { assert lead[0] == ' '; }
    }
    TrimOfPadded(lead, m, []);
    assert lead + m + [] == lead + m;
  }

  lemma SplitPair(c: Cookie)
    requires ValidName(c.name) && ValidValue(c.value)
    ensures |Split(Pair(c), '=')| > 1
    ensures Split(Pair(c), '=')[0] == c.name
    ensures Split(Pair(c), '=')[1] == FirstSegment(c.value, '=')
  {
    PairShape(c);
  }

  lemma ReadBlank(lead: string, name: string)
    requires lead == "" || lead == " "
    requires ValidName(name)
    ensures FindValue(Split(lead, ';'), name) == None
  {
    assert Split(lead, ';') == [lead] by {
      SplitAbsent(lead, ';');
    }
    NameAndValueBlank(lead);
    assert [lead][1..] == [];
  }

  lemma NameAndValueBlank(lead: string)
    requires lead == "" || lead == " "
    ensures NameAndValue(lead) == ("", "")
  {
    assert Trim(lead) == "" by {
      TrimLead(lead, "");
      assert lead + "" == lead;
    }
    SplitAbsent("", '=');
  }

  lemma ReadSingle(c: Cookie, lead: string, name: string)
    requires ValidName(c.name) && ValidValue(c.value) && ValidName(name)
    requires lead == "" || lead == " "
    ensures FindValue(Split(lead + Pair(c), ';'), name) == Visible([c], name)
  {
    var x := lead + Pair(c);
    assert Split(x, ';') == [x] by {
      PairShape(c);
      assert ';' !in x;
      SplitAbsent(x, ';');
    }
    var found := if c.name == name && FirstSegment(c.value, '=') != "" then Some(FirstSegment(c.value, '=')) else None;
    assert FindValue([x], name) == found by {
      ReadOnePiece(c, lead, [], name);
      assert [x] + [] == [x];
    }
    assert Visible([c], name) == found by {
      LookupSingle(c, name);
    }
  }

  lemma LookupSingle(c: Cookie, name: string)
    ensures Lookup([c], name) == if c.name == name then Some(c.value) else None
  {
    assert [c][1..] == [];
  }

  lemma HeaderCons(jar: seq<Cookie>, lead: string)
    requires |jar| >= 2
    ensures lead + Header(jar) == (lead + Pair(jar[0])) + [';'] + (" " + Header(jar[1..]))
  {
    var p, h := Pair(jar[0]), Header(jar[1..]);
    assert Header(jar) == p + "; " + h;
    RegroupSeparator(lead, p, h);
  }

  lemma RegroupSeparator(lead: string, p: string, h: string)
    ensures lead + (p + "; " + h) == (lead + p) + [';'] + (" " + h)
  {
    assert "; " == [';'] + " ";
  }

  lemma ReadCons(jar: seq<Cookie>, lead: string, name: string)
    requires |jar| >= 2 && WellFormed(jar) && ValidName(name)
    requires lead == "" || lead == " "
    requires FindValue(Split(" " + Header(jar[1..]), ';'), name) == Visible(jar[1..], name)
    ensures FindValue(Split(lead + Header(jar), ';'), name) == Visible(jar, name)
  {
    var c, rest := jar[0], jar[1..];
    PairShape(c);
    var first := lead + Pair(c);
    assert ';' !in first;
    HeaderCons(jar, lead);
    var more := Split(" " + Header(rest), ';');
    SplitConcat(first, " " + Header(rest), ';');
    SplitAbsent(first, ';');
    assert Split(lead + Header(jar), ';') == [first] + more;
    ReadOnePiece(c, lead, more, name);
    if c.name == name {
      assert Lookup(rest, name) == None;
      assert Lookup(jar, name) == Some(c.value);
    } else {
      assert Lookup(jar, name) == Lookup(rest, name);
    }
  }

  lemma {:induction false} ReadPieces(jar: seq<Cookie>, lead: string, name: string)
    requires WellFormed(jar) && ValidName(name)
    requires lead == "" || lead == " "
    ensures FindValue(Split(lead + Header(jar), ';'), name) == Visible(jar, name)
    decreases |jar|
  {
    if |jar| == 0 {
      assert lead + Header(jar) == lead;
      ReadBlank(lead, name);
    } else if |jar| == 1 {
      assert lead + Header(jar) == lead + Pair(jar[0]);
      assert jar == [jar[0]];
      ReadSingle(jar[0], lead, name);
    } else {
      ReadPieces(jar[1..], " ", name);
      ReadCons(jar, lead, name);
    }
  }

  /** Reading the `document.cookie` string back finds exactly what the jar
      holds under `name`, cut at the value's first '='; other cookies never
      interfere. */
  lemma ReadHeader(jar: seq<Cookie>, name: string)
    requires WellFormed(jar) && ValidName(name)
    ensures FindValue(Split(Header(jar), ';'), name) == Visible(jar, name)
  {
    ReadPieces(jar, "", name);
    assert "" + Header(jar) == Header(jar);
  }
}
