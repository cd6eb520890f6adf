/**
 Branch names on disk (`lakehouse_kit/branch_layout.py`): the file a branch's ref lives in and back, and the
 order in which the branches inside another have to be deleted. Names are held as UTF-8 octets, one `char`
 per octet.
 */
module BranchLayout {
  import opened Outcomes
  import opened Locations
  import opened LocationLaws

  // ---------------------------------------------------------------- the ref file's name

  /** Letters, digits and "_.-~": what percent-encoding with nothing else kept safe leaves alone. */
  predicate Unreserved(c: char) {
    'a' <= c <= 'z' || 'A' <= c <= 'Z' || '0' <= c <= '9' || c in {'_', '.', '-', '~'}
  }

  function HexDigit(v: nat): (c: char)
    requires v < 16
    ensures IsHex(c) && HexValue(c) == v && c != '/'
  {
    if v < 10 then '0' + v as char else 'A' + (v - 10) as char
  }

  predicate Octets(s: string) {
    forall i :: 0 <= i < |s| ==> (s[i] as int) < 256
  }

  function Quoted(s: string): (quoted: string)
    requires Octets(s)
    ensures '/' !in quoted
  {
    if s == "" then ""
    else
      var rest := Quoted(s[1..]);
      if Unreserved(s[0]) then [s[0]] + rest
      else ['%', HexDigit(s[0] as int / 16), HexDigit(s[0] as int % 16)] + rest
  }

  function RefFileName(name: string): string
    requires Octets(name)
  {
    Quoted(name) + ".json"
  }

  /** The text octets decode to, each maximal ill-formed part replaced by U+FFFD. */
  function Repaired(s: string): string {
    if s == "" then ""
    else
      var whole := Formed(s);
      if whole > 0 then s[..whole] + Repaired(s[whole..])
      else MARK + Repaired(s[Broken(s)..])
  }

  /** Whether the second octet may follow the first of a three- or four-octet sequence. */
  predicate Opens(s: string)
    requires s != ""
  {
    var a := s[0] as int;
    Continues(s, 1)
    && (a == 0xE0 ==> 0xA0 <= s[1] as int) && (a == 0xED ==> s[1] as int <= 0x9F)
    && (a == 0xF0 ==> 0x90 <= s[1] as int) && (a == 0xF4 ==> s[1] as int <= 0x8F)
  }

  /** How many octets the well-formed sequence at the front has; 0 where there is none. */
  function Formed(s: string): (n: nat)
    requires s != ""
    ensures n <= |s|
  {
    var a := s[0] as int;
    if a < 0x80 then 1
    else if 0xC2 <= a <= 0xDF && Continues(s, 1) then 2
    else if 0xE0 <= a <= 0xEF && Opens(s) && Continues(s, 2) then 3
    else if 0xF0 <= a <= 0xF4 && Opens(s) && Continues(s, 2) && Continues(s, 3) then 4
    else 0
  }

  /** How many octets one replacement stands for. */
  function Broken(s: string): (n: nat)
    requires s != ""
    ensures 1 <= n <= |s|
  {
    var a := s[0] as int;
    if 0xE0 <= a <= 0xF4 && Opens(s) then (if a >= 0xF0 && Continues(s, 2) then 3 else 2) else 1
  }

  /** The branch a file under the refs directory names. */
  function BranchName(file: string): Option<string> {
    if |file| < 5 || file[|file| - 5..] != ".json" then None
    else
      var name := Repaired(Unquoted(file[..|file| - 5]));
      if name == "" then None else Some(name)
  }

  /** Octet by octet: the unreserved characters of section 2.3 of RFC 3986 stand for themselves, every other octet is a
      percent sign and its two capital hex digits. */
  lemma {:induction false} QuotesOneByOne(c: char, rest: string)
    requires (c as int) < 256 && Octets(rest)
    ensures Octets([c] + rest)
    ensures Quoted([c] + rest)
            == (if KeptAsItIs(c) then [c]
                else ['%', "0123456789ABCDEF"[c as int / 16], "0123456789ABCDEF"[c as int % 16]]) + Quoted(rest)
  {
    assert ([c] + rest)[1..] == rest;
    UnreservedExactly(c);
    hide KeptAsItIs, Unreserved;
    CapitalDigits(c as int / 16);
    CapitalDigits(c as int % 16);
  }

  lemma {:induction false} CapitalDigits(v: nat)
    requires v < 16
    ensures HexDigit(v) == "0123456789ABCDEF"[v]
  {
  }

  /** The unreserved characters, written out. */
  predicate KeptAsItIs(c: char) {
    || c in "ABCDEFGHIJKLM" || c in "NOPQRSTUVWXYZ" || c in "abcdefghijklm" || c in "nopqrstuvwxyz"
    || c in "0123456789" || c in "-._~"
  }

  lemma {:induction false} FirstCapitals(c: char)
    ensures 'A' <= c <= 'M' <==> c in "ABCDEFGHIJKLM"
  {
    if 'A' <= c <= 'M' {
      assert "ABCDEFGHIJKLM"[c as int - 'A' as int] == c;
    }
  }

  lemma {:induction false} LastCapitals(c: char)
    ensures 'N' <= c <= 'Z' <==> c in "NOPQRSTUVWXYZ"
  {
    if 'N' <= c <= 'Z' {
      assert "NOPQRSTUVWXYZ"[c as int - 'N' as int] == c;
    }
  }

  lemma {:induction false} FirstSmallLetters(c: char)
    ensures 'a' <= c <= 'm' <==> c in "abcdefghijklm"
  {
    if 'a' <= c <= 'm' {
      assert "abcdefghijklm"[c as int - 'a' as int] == c;
    }
  }

  lemma {:induction false} LastSmallLetters(c: char)
    ensures 'n' <= c <= 'z' <==> c in "nopqrstuvwxyz"
  {
    if 'n' <= c <= 'z' {
      assert "nopqrstuvwxyz"[c as int - 'n' as int] == c;
    }
  }

  lemma {:induction false} DigitsAre(c: char)
    ensures '0' <= c <= '9' <==> c in "0123456789"
  {
    if '0' <= c <= '9' {
      assert "0123456789"[c as int - '0' as int] == c;
    }
  }

  lemma {:induction false} UnreservedExactly(c: char)
    ensures Unreserved(c) <==> KeptAsItIs(c)
  {
    FirstCapitals(c);
    LastCapitals(c);
    FirstSmallLetters(c);
    LastSmallLetters(c);
    DigitsAre(c);
    assert c in "-._~" <==> c in {'_', '.', '-', '~'};
  }

  lemma {:induction false} UnquotedUndoesQuoted(s: string)
    requires Octets(s)
    ensures Unquoted(Quoted(s)) == s
  {
    if s != "" {
      UnquotedUndoesQuoted(s[1..]);
      var quoted := Quoted(s);
      if Unreserved(s[0]) {
        assert quoted[1..] == Quoted(s[1..]);
      } else {
        assert quoted[3..] == Quoted(s[1..]);
        assert Escape(quoted);
      }
      assert s == [s[0]] + s[1..];
    }
  }

  lemma {:induction false} Utf8IsFormed(s: string)
    requires s != ""
    ensures Utf8(s) <==> Formed(s) > 0 && Utf8(s[Formed(s)..])
  {
  }

  /** The well-formed sequence at the front is the encoding of a character. */
  lemma {:induction false} FormedIsEncoded(s: string)
    requires s != ""
    ensures Formed(s) > 0 ==> exists p :: Scalar(p) && s[..Formed(s)] == Encoded(p)
    ensures forall p :: Scalar(p) && Encoded(p) <= s ==> Formed(s) == |Encoded(p)|
  {
    if Formed(s) > 0 {
      var front := s[..Formed(s)];
      FormedAlone(s);
      FrontStays(front, "");
      assert front + "" == front;
      var p, n := FirstCharacter(front);
      assert Formed(front) == n by { FormedOfEncoded(p, front); }
      assert s[..Formed(s)] == Encoded(p);
    }
    forall p | Scalar(p) && Encoded(p) <= s ensures Formed(s) == |Encoded(p)| {
      FormedOfEncoded(p, s);
    }
  }

  lemma {:induction false} FormedOfEncoded(p: nat, s: string)
    requires Scalar(p) && Encoded(p) <= s
    ensures s != "" && Formed(s) == |Encoded(p)|
  {
  }

  /** What one replacement stands for is as much as could have begun a character, and no more: more than one octet only
      where they begin some character's encoding, and with one octet more they would begin none's. */
  lemma {:induction false} BrokenIsLongest(s: string)
    requires s != "" && Formed(s) == 0
    ensures Broken(s) > 1 ==> exists p :: Scalar(p) && s[..Broken(s)] < Encoded(p)
    ensures Broken(s) < |s| ==> forall p :: Scalar(p) ==> !(s[..Broken(s) + 1] <= Encoded(p))
  {
    var n := Broken(s);
    if n > 1 {
      var p := Begun(s);
    }
    if n < |s| {
      forall p | Scalar(p) ensures !(s[..n + 1] <= Encoded(p)) {
        BegunNoFurther(s, p);
      }
    }
  }

  lemma {:induction false} Begun(s: string) returns (p: nat)
    requires s != "" && Formed(s) == 0 && Broken(s) > 1
    ensures Scalar(p) && s[..Broken(s)] < Encoded(p)
  {
    if s[0] as int < 0xF0 {
      p := BegunThree(s);
    } else if Broken(s) == 2 {
      p := BegunFourByTwo(s);
    } else {
      p := BegunFourByThree(s);
    }
  }

  lemma {:induction false} BegunThree(s: string) returns (p: nat)
    requires s != "" && 0xE0 <= s[0] as int < 0xF0 && Opens(s)
    ensures Scalar(p) && |Encoded(p)| == 3 && s[..2] == Encoded(p)[..2]
  {
    var a, b := s[0] as int - 0xE0, s[1] as int - 0x80;
    p := a * 0x1000 + b * 0x40;
    assert p / 0x1000 == a && p / 0x40 == a * 0x40 + b && p / 0x40 % 0x40 == b;
  }

  lemma {:induction false} BegunFourByTwo(s: string) returns (p: nat)
    requires s != "" && 0xF0 <= s[0] as int <= 0xF4 && Opens(s)
    ensures Scalar(p) && |Encoded(p)| == 4 && s[..2] == Encoded(p)[..2]
  {
    var a, b := s[0] as int - 0xF0, s[1] as int - 0x80;
    p := a * 0x40000 + b * 0x1000;
    assert p / 0x40000 == a && p / 0x1000 == a * 0x40 + b && p / 0x1000 % 0x40 == b;
  }

  lemma {:induction false} BegunFourByThree(s: string) returns (p: nat)
    requires s != "" && 0xF0 <= s[0] as int <= 0xF4 && Opens(s) && Continues(s, 2)
    ensures Scalar(p) && |Encoded(p)| == 4 && s[..3] == Encoded(p)[..3]
  {
    var a, b, c := s[0] as int - 0xF0, s[1] as int - 0x80, s[2] as int - 0x80;
    p := a * 0x40000 + b * 0x1000 + c * 0x40;
    assert p / 0x40000 == a && p / 0x1000 == a * 0x40 + b && p / 0x1000 % 0x40 == b;
    assert p / 0x40 == a * 0x1000 + b * 0x40 + c && p / 0x40 % 0x40 == c;
  }

  lemma {:induction false} BegunNoFurther(s: string, p: nat)
    requires s != "" && Formed(s) == 0 && Broken(s) < |s| && Scalar(p)
    ensures !(s[..Broken(s) + 1] <= Encoded(p))
  {
    var n := Broken(s);
    var e := Encoded(p);
    if s[..n + 1] <= e {
      assert forall i :: 0 <= i <= n ==> s[i] == e[i];
      assert false;
    }
  }

  /** A front of one well-formed sequence reads the same whatever follows it. */
  lemma {:induction false} FrontStays(front: string, rest: string)
    requires front != "" && Formed(front) == |front|
    ensures Utf8(front + rest) <==> Utf8(rest)
  {
    var whole := front + rest;
    assert forall i :: 0 <= i < |front| ==> whole[i] == front[i];
    assert Formed(whole) == |front|;
    assert whole[|front|..] == rest;
    Utf8IsFormed(whole);
  }

  lemma {:induction false} FormedAlone(s: string)
    requires s != "" && Formed(s) > 0
    ensures Formed(s[..Formed(s)]) == Formed(s)
  {
  }

  const MARK: string := [0xEF as char, 0xBF as char, 0xBD as char]

  /** What stands in for broken octets is the replacement character, U+FFFD. */
  lemma {:induction false} MarkIsEncoded()
    ensures MARK == Encoded(0xFFFD)
  {
  }

  lemma {:induction false} TextBehindAMark(rest: string)
    ensures Utf8(MARK + rest) <==> Utf8(rest)
  {
    assert Formed(MARK) == 3;
    FrontStays(MARK, rest);
  }

  lemma {:induction false} TextBehindAFront(s: string, rest: string)
    requires s != "" && Formed(s) > 0
    ensures Utf8(s[..Formed(s)] + rest) <==> Utf8(rest)
  {
    FormedAlone(s);
    FrontStays(s[..Formed(s)], rest);
  }

  /** Decoding with replacement always gives text, and leaves exactly the text alone. */
  lemma {:induction false} RepairedIsText(s: string)
    ensures Utf8(Repaired(s))
    ensures Repaired(s) == s <==> Utf8(s)
    ensures Repaired(s) == "" <==> s == ""
    decreases |s|
  {
    if s != "" {
      var n := Formed(s);
      Utf8IsFormed(s);
      if n > 0 {
        RepairedIsText(s[n..]);
        TextBehindAFront(s, Repaired(s[n..]));
        hide Formed, Broken, Utf8;
        assert s == s[..n] + s[n..];
        assert Repaired(s)[n..] == Repaired(s[n..]);
      } else {
        var rest := s[Broken(s)..];
        RepairedIsText(rest);
        TextBehindAMark(Repaired(rest));
        assert Repaired(s) == MARK + Repaired(rest);
        hide Formed, Broken, Utf8, Repaired;
      }
    }
  }

  /** Reading back the file a name is kept in gives that name, exactly when the name is text and not empty;
      and the file is one entry of its directory, however deep the branch's own path is. */
  lemma {:induction false} BranchNameOfItsFile(name: string)
    requires Octets(name)
    ensures BranchName(RefFileName(name)) == (if name == "" then None else Some(Repaired(name)))
    ensures BranchName(RefFileName(name)) == Some(name) <==> name != "" && Utf8(name)
    ensures '/' !in RefFileName(name)
  {
    var file := RefFileName(name);
    assert file[..|file| - 5] == Quoted(name) && file[|file| - 5..] == ".json";
    UnquotedUndoesQuoted(name);
    RepairedIsText(name);
  }

  /** Text is made of octets, so every branch name that is text has a file. */
  lemma {:induction false} TextIsOctets(s: string)
    requires Utf8(s)
    ensures Octets(s)
    decreases |s|
  {
    if s != "" {
      var n := Formed(s);
      Utf8IsFormed(s);
      TextIsOctets(s[n..]);
      assert forall i :: n <= i < |s| ==> s[i] == s[n..][i - n];
    }
  }

  /** So every branch whose name is text is found again under its file, whatever the text. */
  lemma {:induction false} TextNamesAreReadBack(name: string)
    requires Utf8(name) && name != ""
    ensures Octets(name) && BranchName(RefFileName(name)) == Some(name)
  {
    TextIsOctets(name);
    BranchNameOfItsFile(name);
  }

  /** No two names share a file. */
  lemma {:induction false} RefFileNameIsInjective(a: string, b: string)
    requires Octets(a) && Octets(b)
    ensures RefFileName(a) == RefFileName(b) <==> a == b
  {
    if RefFileName(a) == RefFileName(b) {
      assert RefFileName(a)[..|RefFileName(a)| - 5] == Quoted(a) && RefFileName(b)[..|RefFileName(b)| - 5] == Quoted(b);
      UnquotedUndoesQuoted(a);
      UnquotedUndoesQuoted(b);
    }
  }

  // ---------------------------------------------------------------- the order of a delete

  /** Whether branch `inner` keeps its files beneath branch `outer`'s directory. */
  predicate Inside(inner: string, outer: string) {
    outer + "/" <= inner
  }

  /** More slashes first; among equals, in text order. */
  predicate Before(a: string, b: string) {
    var m, n := Occurrences(a, '/'), Occurrences(b, '/');
    m > n || (m == n && AtMost(a, b))
  }

  function Insert(b: string, sorted: seq<string>): seq<string> {
    if sorted == [] || Before(b, sorted[0]) then [b] + sorted else [sorted[0]] + Insert(b, sorted[1..])
  }

  function BranchesInside(name: string, branches: seq<string>): seq<string> {
    if branches == [] then []
    else
      var rest := BranchesInside(name, branches[1..]);
      if Inside(branches[0], name) then Insert(branches[0], rest) else rest
  }

  function Chosen(name: string, branches: seq<string>): multiset<string> {
    if branches == [] then multiset{}
    else (if Inside(branches[0], name) then multiset{branches[0]} else multiset{}) + Chosen(name, branches[1..])
  }

  ghost predicate Ordered(s: seq<string>) {
    forall i, j :: 0 <= i < j < |s| ==> Before(s[i], s[j])
  }

  lemma {:induction false} BeforeIsAnOrder(a: string, b: string, c: string)
    ensures Before(a, b) || Before(b, a)
    ensures Before(a, b) && Before(b, c) ==> Before(a, c)
  {
    AtMostIsTotal(a, b);
    if AtMost(a, b) && AtMost(b, c) {
      AtMostIsTransitive(a, b, c);
    }
  }

  lemma {:induction false} InsertKeepsOrder(b: string, sorted: seq<string>)
    requires Ordered(sorted)
    ensures Ordered(Insert(b, sorted))
    ensures multiset(Insert(b, sorted)) == multiset(sorted) + multiset{b}
    decreases |sorted|
  {
    if sorted != [] {
      assert sorted == [sorted[0]] + sorted[1..];
      if Before(b, sorted[0]) {
        forall j | 0 <= j < |sorted| ensures Before(b, sorted[j]) {
          BeforeIsAnOrder(b, sorted[0], sorted[j]);
        }
      } else {
        var rest := Insert(b, sorted[1..]);
        InsertKeepsOrder(b, sorted[1..]);
        BeforeIsAnOrder(sorted[0], b, b);
        forall j | 0 <= j < |rest| ensures Before(sorted[0], rest[j]) {
          assert rest[j] in multiset(rest);
          if rest[j] != b {
            assert rest[j] in sorted[1..];
          }
        }
      }
    }
  }

  lemma {:induction false} InsideHasMoreSlashes(inner: string, outer: string)
    requires Inside(inner, outer)
    ensures Occurrences(inner, '/') > Occurrences(outer, '/')
    decreases |outer|
  {
    assert inner[|outer|] == (outer + "/")[|outer|] == '/';
    if outer != "" {
      assert inner[0] == (outer + "/")[0] == outer[0];
      assert outer[1..] + "/" == (outer + "/")[1..];
      InsideHasMoreSlashes(inner[1..], outer[1..]);
    }
  }

  /** Exactly the given branches beneath `name`, as often as given, and each only after every branch inside
      it: at any point of the delete, no branch is removed while one it holds is still to come. */
  lemma {:induction false} InsideComesFirst(name: string, branches: seq<string>)
    ensures multiset(BranchesInside(name, branches)) == Chosen(name, branches)
    ensures Ordered(BranchesInside(name, branches))
    ensures var order := BranchesInside(name, branches);
            forall i, j :: 0 <= i < j < |order| ==>
              || Occurrences(order[i], '/') > Occurrences(order[j], '/')
              || (Occurrences(order[i], '/') == Occurrences(order[j], '/') && AtMost(order[i], order[j]))
    ensures var order := BranchesInside(name, branches);
            forall i, j :: 0 <= i < j < |order| ==> !(order[i] + "/" <= order[j])
  {
    if branches != [] {
      InsideComesFirst(name, branches[1..]);
      if Inside(branches[0], name) {
        InsertKeepsOrder(branches[0], BranchesInside(name, branches[1..]));
      }
    }
    var order := BranchesInside(name, branches);
    forall i, j | 0 <= i < j < |order| ensures !Inside(order[j], order[i]) {
      assert Before(order[i], order[j]);
      if Inside(order[j], order[i]) {
        InsideHasMoreSlashes(order[j], order[i]);
      }
    }
  }

  lemma {:induction false} ChosenAreInside(name: string, branches: seq<string>, b: string)
    ensures b in Chosen(name, branches) <==> b in branches && name + "/" <= b
  {
    if branches != [] {
      ChosenAreInside(name, branches[1..], b);
      assert branches == [branches[0]] + branches[1..];
    }
  }
}
