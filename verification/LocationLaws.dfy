/**
 What the rules of `Locations` mean, said without them: which store a spelling is of, what normalising leaves, which
 octets are text, which segments name something, and when one place lies in another, each in terms of the characters
 alone.
 */
module LocationLaws {
  import opened Outcomes
  import opened Locations

  // ---------------------------------------------------------------- stores

  /** A colon and two slashes stand at `i`. */
  predicate EndsAScheme(s: string, i: nat) {
    i + 2 < |s| && s[i] == ':' && s[i + 1] == '/' && s[i + 2] == '/'
  }

  /** None stand in `s` before position `end`. */
  predicate NoSchemeBefore(s: string, end: nat) {
    forall k: nat :: k < end ==> !EndsAScheme(s, k)
  }

  lemma {:induction false} SchemeEndsThere(s: string, i: nat)
    ensures SchemeAt(s, i) <==> EndsAScheme(s, i)
  {
    if i + 3 <= |s| {
      assert s[i..i + 3] == [s[i], s[i + 1], s[i + 2]];
    }
  }

  /** The same letter, capital or small, or the same character. */
  predicate SameLetter(a: char, b: char) {
    a == b || ('A' <= a <= 'Z' && b as int == a as int + 32) || ('A' <= b <= 'Z' && a as int == b as int + 32)
  }

  predicate SameUpToCase(a: string, b: string) {
    |a| == |b| && forall i :: 0 <= i < |a| ==> SameLetter(a[i], b[i])
  }

  lemma {:induction false} FirstScheme(s: string, i: nat, at: nat)
    requires i <= at && EndsAScheme(s, at) && NoSchemeBefore(s, at)
    ensures Scheme(s, i) == Some(at)
    decreases at - i
  {
    SchemeEndsThere(s, i);
    if i < at {
      FirstScheme(s, i + 1, at);
    }
  }

  /** `small` is `s` with every capital of the alphabet made small. */
  predicate MadeSmall(s: string, small: string) {
    |small| == |s|
    && forall i :: 0 <= i < |s| ==>
         small[i] == if 'A' <= s[i] <= 'Z' then (s[i] as int + 32) as char else s[i]
  }

  /** A spelling with a scheme is of the store the scheme names, its capitals made small. */
  lemma {:induction false} StoreOfAScheme(scheme: string, rest: string)
    requires NoSchemeBefore(scheme + "://" + rest, |scheme|)
    ensures MadeSmall(scheme, StoreOf(scheme + "://" + rest))
  {
    var uri := scheme + "://" + rest;
    assert uri[|scheme|] == ':' && uri[|scheme| + 1] == '/' && uri[|scheme| + 2] == '/';
    FirstScheme(uri, 0, |scheme|);
    assert uri[..|scheme|] == scheme;
  }

  lemma {:induction false} SmallAlikeExactlyWhen(a: string, b: string, s: string, t: string)
    requires MadeSmall(a, s) && MadeSmall(b, t)
    ensures s == t <==> SameUpToCase(a, b)
  {
    if SameUpToCase(a, b) {
      assert forall i :: 0 <= i < |a| ==> SameLetter(a[i], b[i]) && s[i] == t[i];
    }
    if s == t {
      assert forall i :: 0 <= i < |a| ==> s[i] == t[i] && SameLetter(a[i], b[i]);
    }
  }

  /** A spelling without one is of the file system. */
  lemma {:induction false} StoreOfABarePath(path: string)
    requires NoSchemeBefore(path, |path|)
    ensures StoreOf(path) == "file"
  {
    NoSchemeAnywhere(path);
  }

  lemma {:induction false} NoSchemeAnywhere(s: string)
    requires NoSchemeBefore(s, |s|)
    ensures Scheme(s).None?
  {
    if Scheme(s).Some? {
      SchemeEndsThere(s, Scheme(s).value);
    }
  }

  /** Two spellings with schemes are of one store exactly when the schemes agree up to case; one without is of the
      store of one with exactly when that scheme says "file" up to case. */
  lemma {:induction false} OneStoreExactlyWhen(a: string, b: string, x: string, y: string, bare: string)
    requires NoSchemeBefore(a + "://" + x, |a|) && NoSchemeBefore(b + "://" + y, |b|) && NoSchemeBefore(bare, |bare|)
    ensures StoreOf(a + "://" + x) == StoreOf(b + "://" + y) <==> SameUpToCase(a, b)
    ensures StoreOf(a + "://" + x) == StoreOf(bare) <==> SameUpToCase(a, "file")
  {
    StoreOfAScheme(a, x);
    StoreOfAScheme(b, y);
    StoreOfABarePath(bare);
    SmallAlikeExactlyWhen(a, b, StoreOf(a + "://" + x), StoreOf(b + "://" + y));
    SmallAlikeExactlyWhen(a, "file", StoreOf(a + "://" + x), "file");
  }

  // ---------------------------------------------------------------- normalising

  function Slashes(n: nat): string {
    seq(n, _ => '/')
  }

  /** `t` is `s` without the slashes at its two ends. */
  ghost predicate Trimmed(s: string, t: string) {
    && (exists a: nat, b: nat :: s == Slashes(a) + t + Slashes(b))
    && (t != "" ==> t[0] != '/' && t[|t| - 1] != '/')
  }

  lemma {:induction false} StripsLeft(s: string) returns (a: nat)
    ensures s == Slashes(a) + StripLeft(s) && (StripLeft(s) != "" ==> StripLeft(s)[0] != '/')
  {
    a := 0;
    if s != "" && s[0] == '/' {
      var n := StripsLeft(s[1..]);
      a := n + 1;
      assert Slashes(a) == ['/'] + Slashes(n);
      assert s == ['/'] + s[1..];
    }
  }

  lemma {:induction false} StripsRight(s: string) returns (b: nat)
    ensures s == StripRight(s) + Slashes(b) && (StripRight(s) != "" ==> StripRight(s)[|StripRight(s)| - 1] != '/')
  {
    b := 0;
    if s != "" && s[|s| - 1] == '/' {
      var n := StripsRight(s[..|s| - 1]);
      b := n + 1;
      assert Slashes(b) == Slashes(n) + ['/'];
      assert s == s[..|s| - 1] + ['/'];
    }
  }

  lemma {:induction false} StripsBoth(s: string)
    ensures Trimmed(s, StripRight(StripLeft(s)))
  {
    var a := StripsLeft(s);
    var b := StripsRight(StripLeft(s));
    var t := StripRight(StripLeft(s));
    assert s == Slashes(a) + t + Slashes(b);
    if t != "" {
      assert StripLeft(s)[0] == t[0];
    }
  }

  /** Normalising takes away the scheme, if there is one, and the slashes at both ends of the rest, and nothing else. */
  lemma {:induction false} NormaliseExactly(scheme: string, rest: string, bare: string)
    requires NoSchemeBefore(scheme + "://" + rest, |scheme|) && NoSchemeBefore(bare, |bare|)
    ensures Trimmed(rest, Normalise(scheme + "://" + rest))
    ensures Trimmed(bare, Normalise(bare))
  {
    var uri := scheme + "://" + rest;
    assert uri[|scheme|] == ':' && uri[|scheme| + 1] == '/' && uri[|scheme| + 2] == '/';
    FirstScheme(uri, 0, |scheme|);
    assert uri[|scheme| + 3..] == rest;
    NoSchemeAnywhere(bare);
    StripsBoth(rest);
    StripsBoth(bare);
  }

  // ---------------------------------------------------------------- percent-decoding

  /** The hex digits and their values, small and capital. */
  lemma {:induction false} HexDigitsAre(c: char)
    ensures IsHex(c) <==> c in "0123456789abcdefABCDEF"
    ensures forall v: nat :: v < 16 ==> HexValue("0123456789abcdef"[v]) == v && HexValue("0123456789ABCDEF"[v]) == v
  {
  }

  /** `c` is the hex digit, of either case, of value `v`. */
  predicate DigitOf(c: char, v: nat) {
    v < 16 && (c == "0123456789abcdef"[v] || c == "0123456789ABCDEF"[v])
  }

  /** A percent sign and two hex digits decode to the octet of that value, wherever they stand first. */
  lemma {:induction false} AnEscapeDecodes(high: nat, low: nat, h: char, l: char, rest: string)
    requires DigitOf(h, high) && DigitOf(l, low)
    ensures Unquoted(['%', h, l] + rest) == [(16 * high + low) as char] + Unquoted(rest)
  {
    HexDigitsAre(h);
    HexDigitsAre(l);
    assert (['%', h, l] + rest)[3..] == rest;
    assert IsHex(h) && IsHex(l) && HexValue(h) == high && HexValue(l) == low;
    hide HexValue, IsHex;
  }

  /** Any other octet stands for itself, a percent sign without two hex digits included. */
  lemma {:induction false} OtherOctetsStay(c: char, rest: string)
    requires c == '%' ==> |rest| < 2 || rest[0] !in "0123456789abcdefABCDEF" || rest[1] !in "0123456789abcdefABCDEF"
    ensures Unquoted([c] + rest) == [c] + Unquoted(rest)
  {
    assert ([c] + rest)[1..] == rest;
    if |rest| >= 2 {
      HexDigitsAre(rest[0]);
      HexDigitsAre(rest[1]);
    }
    hide HexValue, IsHex;
  }

  // ---------------------------------------------------------------- text

  /** A code point that is a character: not beyond the last plane and no surrogate. */
  predicate Scalar(p: nat) {
    p < 0x110000 && !(0xD800 <= p < 0xE000)
  }

  /** The octets of one character (section 3 of RFC 3629). */
  function Encoded(p: nat): string
    requires Scalar(p)
  {
    if p < 0x80 then [p as char]
    else if p < 0x800 then [(0xC0 + p / 0x40) as char, (0x80 + p % 0x40) as char]
    else if p < 0x10000 then
      [(0xE0 + p / 0x1000) as char, (0x80 + p / 0x40 % 0x40) as char, (0x80 + p % 0x40) as char]
    else
      [(0xF0 + p / 0x40000) as char, (0x80 + p / 0x1000 % 0x40) as char,
       (0x80 + p / 0x40 % 0x40) as char, (0x80 + p % 0x40) as char]
  }

  predicate AllScalar(ps: seq<nat>) {
    forall i :: 0 <= i < |ps| ==> Scalar(ps[i])
  }

  function EncodedAll(ps: seq<nat>): string
    requires AllScalar(ps)
  {
    if ps == [] then "" else Encoded(ps[0]) + EncodedAll(ps[1..])
  }

  lemma {:induction false} OneMoreCharacter(p: nat, rest: string)
    requires Scalar(p) && Utf8(rest)
    ensures Utf8(Encoded(p) + rest)
  {
    var s := Encoded(p) + rest;
    assert s[|Encoded(p)|..] == rest;
  }

  lemma {:induction false} EncodedIsText(ps: seq<nat>)
    requires AllScalar(ps)
    ensures Utf8(EncodedAll(ps))
  {
    if ps != [] {
      EncodedIsText(ps[1..]);
      OneMoreCharacter(ps[0], EncodedAll(ps[1..]));
    }
  }

  /** The character text begins with, and how many octets it takes. */
  lemma {:induction false} FirstCharacter(s: string) returns (p: nat, n: nat)
    requires s != "" && Utf8(s)
    ensures Scalar(p) && 1 <= n <= |s| && s[..n] == Encoded(p) && Utf8(s[n..])
  {
    var a := s[0] as int;
    if a < 0x80 {
      p, n := a, 1;
    } else if a <= 0xDF {
      p := FirstOfTwo(s);
      n := 2;
    } else if a <= 0xEF {
      p := FirstOfThree(s);
      n := 3;
    } else {
      p := FirstOfFour(s);
      n := 4;
    }
  }

  lemma {:induction false} FirstOfTwo(s: string) returns (p: nat)
    requires s != "" && Utf8(s) && 0x80 <= s[0] as int <= 0xDF
    ensures Scalar(p) && |s| >= 2 && s[..2] == Encoded(p) && Utf8(s[2..])
  {
    var high, low := s[0] as int - 0xC0, s[1] as int - 0x80;
    p := high * 0x40 + low;
    assert p / 0x40 == high && p % 0x40 == low;
  }

  lemma {:induction false} FirstOfThree(s: string) returns (p: nat)
    requires s != "" && Utf8(s) && 0xE0 <= s[0] as int <= 0xEF
    ensures Scalar(p) && |s| >= 3 && s[..3] == Encoded(p) && Utf8(s[3..])
  {
    var high, mid, low := s[0] as int - 0xE0, s[1] as int - 0x80, s[2] as int - 0x80;
    p := high * 0x1000 + mid * 0x40 + low;
    assert p / 0x40 == high * 0x40 + mid && p % 0x40 == low;
    assert p / 0x1000 == high && p / 0x40 % 0x40 == mid;
  }

  lemma {:induction false} FirstOfFour(s: string) returns (p: nat)
    requires s != "" && Utf8(s) && 0xF0 <= s[0] as int
    ensures Scalar(p) && |s| >= 4 && s[..4] == Encoded(p) && Utf8(s[4..])
  {
    var high, mid := s[0] as int - 0xF0, s[1] as int - 0x80;
    var next, low := s[2] as int - 0x80, s[3] as int - 0x80;
    p := high * 0x40000 + mid * 0x1000 + next * 0x40 + low;
    assert p / 0x40 == high * 0x1000 + mid * 0x40 + next && p % 0x40 == low;
    assert p / 0x1000 == high * 0x40 + mid && p / 0x40 % 0x40 == next;
    assert p / 0x40000 == high && p / 0x1000 % 0x40 == mid;
  }

  lemma {:induction false} TextIsEncoded(s: string) returns (ps: seq<nat>)
    requires Utf8(s)
    ensures AllScalar(ps) && EncodedAll(ps) == s
    decreases |s|
  {
    ps := [];
    if s != "" {
      var p, n := FirstCharacter(s);
      var more := TextIsEncoded(s[n..]);
      ps := [p] + more;
      assert ps[1..] == more;
      assert s == s[..n] + s[n..];
    }
  }

  /** Octets are text exactly when they are the encodings of some characters, one after the other. */
  lemma {:induction false} TextExactly(s: string)
    ensures Utf8(s) <==> exists ps :: AllScalar(ps) && EncodedAll(ps) == s
  {
    if Utf8(s) {
      var ps := TextIsEncoded(s);
    }
    if ps :| AllScalar(ps) && EncodedAll(ps) == s {
      EncodedIsText(ps);
    }
  }

  // ---------------------------------------------------------------- segments

  /** Some escape of `s` stands for `c`. */
  predicate Escapes(s: string, c: char) {
    if s == "" then false
    else if Escape(s) then HexValue(s[1]) * 16 + HexValue(s[2]) == c as int || Escapes(s[3..], c)
    else Escapes(s[1..], c)
  }

  lemma {:induction false} DecodingAddsEscapes(s: string, c: char)
    requires c == '/' || c == '\\'
    ensures Occurrences(Unquoted(s), c) >= Occurrences(s, c)
    ensures Occurrences(Unquoted(s), c) > Occurrences(s, c) <==> Escapes(s, c)
  {
    if s != "" {
      if Escape(s) {
        DecodingAddsEscapes(s[3..], c);
        assert s[1..][1..] == s[2..] && s[2..][1..] == s[3..];
        assert Occurrences(s, c) == Occurrences(s[1..], c);
        assert Occurrences(s[1..], c) == Occurrences(s[2..], c);
        assert Occurrences(s[2..], c) == Occurrences(s[3..], c);
        assert Unquoted(s)[1..] == Unquoted(s[3..]);
      } else {
        DecodingAddsEscapes(s[1..], c);
        assert Unquoted(s)[1..] == Unquoted(s[1..]);
      }
    }
  }

  /** A spelled segment names something exactly when, decoded once, it is text, neither empty nor "." nor "..", with no
      question mark and no control character, and none of its escapes stands for a separator of either kind; and then
      it names what it decodes to. */
  lemma {:induction false} SegmentExactly(spelled: string)
    ensures Segment(spelled).Some?
            <==> && (exists ps :: AllScalar(ps) && EncodedAll(ps) == Unquoted(spelled))
                 && Unquoted(spelled) != "" && Unquoted(spelled) != "." && Unquoted(spelled) != ".."
                 && (forall c :: c in Unquoted(spelled) ==> c != '?' && 32 <= c as int && c as int != 127)
                 && !Escapes(spelled, '/') && !Escapes(spelled, '\\')
    ensures Segment(spelled).Some? ==> Segment(spelled).value == Unquoted(spelled)
  {
    TextExactly(Unquoted(spelled));
    DecodingAddsEscapes(spelled, '/');
    DecodingAddsEscapes(spelled, '\\');
    hide Unquoted, Utf8, Occurrences, Escapes, EncodedAll;
  }

  // ---------------------------------------------------------------- containment

  /** Both spell places, and the decoded path of `uri` is that of `place` or goes on from it with a slash. */
  ghost predicate LiesIn(uri: string, place: string) {
    && NamesALocation(place) && NamesALocation(uri)
    && (DecodedPath(uri) == DecodedPath(place) || DecodedPath(place) + "/" <= DecodedPath(uri))
  }

  /** One place lies in another exactly when both are places and the decoded path is the same or goes on with a
      slash. */
  lemma {:induction false} WithinByPath(outer: string, inner: string)
    ensures Within(outer, inner) <==> LiesIn(inner, outer)
  {
    if NamesALocation(outer) && NamesALocation(inner) {
      OverlapIsContainment(outer, inner);
      DecodedPathIsInjective(outer, inner);
    }
  }

  // ---------------------------------------------------------------- text order

  /** `a` is all of `b`'s beginning, or has the smaller octet where they first differ. */
  ghost predicate ComesFirst(a: string, b: string) {
    exists n: nat :: n <= |a| && n <= |b| && a[..n] == b[..n] && (n == |a| || (n < |b| && a[n] < b[n]))
  }

  lemma {:induction false} FirstLetterDecides(a: string, b: string)
    requires a != "" && b != "" && a[0] != b[0]
    ensures ComesFirst(a, b) <==> a[0] < b[0]
  {
    assert a[..0] == b[..0];
    if ComesFirst(a, b) {
      var n: nat :| n <= |a| && n <= |b| && a[..n] == b[..n] && (n == |a| || (n < |b| && a[n] < b[n]));
      assert forall k :: 0 <= k < n ==> a[..n][k] == a[k] && b[..n][k] == b[k];
    }
  }

  lemma {:induction false} RestDecides(a: string, b: string)
    requires a != "" && b != "" && a[0] == b[0]
    ensures ComesFirst(a, b) <==> ComesFirst(a[1..], b[1..])
  {
    var s, t := a[1..], b[1..];
    if ComesFirst(s, t) {
      var n: nat :| n <= |s| && n <= |t| && s[..n] == t[..n] && (n == |s| || (n < |t| && s[n] < t[n]));
      assert a[..n + 1] == [a[0]] + s[..n] && b[..n + 1] == [b[0]] + t[..n];
    }
    if ComesFirst(a, b) {
      var n: nat :| n <= |a| && n <= |b| && a[..n] == b[..n] && (n == |a| || (n < |b| && a[n] < b[n]));
      assert s[..n - 1] == a[..n][1..] && t[..n - 1] == b[..n][1..];
    }
  }

  lemma {:induction false} AtMostExactly(a: string, b: string)
    ensures AtMost(a, b) <==> ComesFirst(a, b)
  {
    if a == "" {
      assert a[..0] == b[..0];
    } else if b != "" {
      if a[0] == b[0] {
        AtMostExactly(a[1..], b[1..]);
        RestDecides(a, b);
      } else {
        FirstLetterDecides(a, b);
      }
      hide ComesFirst;
    }
  }
}
