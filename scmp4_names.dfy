/** File-name escaping and known submit failures (lib/scmp4.py:20-70).
  *
  * Perforce reserves `@ # * %` in file specifications; the replication
  * escapes them as `%40 %23 %2A %25` for commands and unescapes them again
  * for the local file system. */
module ScmP4Names {
  import opened Common
  import opened Strings

  /** Submit failures after which the change is replayed without
    * integrations. */
  const KnownIssues: seq<string> :=
    ["Out of date files must be resolved or reverted", "Merges still pending -- use", "Unexpected revs:"]

  /** The loop over the known issues: does any of `issues` occur in `msg`. */
  function AnyIssueIn(msg: string, issues: seq<string>): (b: bool)
    ensures b <==> exists i :: 0 <= i < |issues| && Contains(msg, issues[i])
  {
    if issues == [] then false
    else if Contains(msg, issues[0]) then true
    else
      var b := AnyIssueIn(msg, issues[1..]);
      assert forall i :: 1 <= i < |issues| ==> issues[i] == issues[1..][i - 1];
      b
  }

  /** `check_if_known_issue`. */
  function CheckIfKnownIssue(msg: string): bool
  {
    AnyIssueIn(msg, KnownIssues)
  }

  lemma {:induction false} ContainsAppendRight(a: string, b: string, sub: string)
    requires Contains(b, sub)
    ensures Contains(a + b, sub)
    decreases |a|
  {
    if a == [] {
      assert a + b == b;
    } else {
      assert (a + b)[1..] == a[1..] + b;
      ContainsAppendRight(a[1..], b, sub);
    }
  }

  /** A submit error carrying a known message is recognised wherever the
    * message sits in it. */
  lemma KnownIssueRecognised(prefix: string, i: nat, suffix: string)
    requires i < |KnownIssues|
    ensures CheckIfKnownIssue(prefix + KnownIssues[i] + suffix)
  {
    var m := KnownIssues[i];
    assert StartsWith(m + suffix, m) by { assert (m + suffix)[..|m|] == m; }
    ContainsAppendRight(prefix, m + suffix, m);
    assert prefix + m + suffix == prefix + (m + suffix);
  }

  // ---------------------------------------------------------------------
  // Escaping

  /** What escaping does to one character. */
  function EscapeChar(c: char): string
  {
    if c == '%' then "%25"
    else if c == '@' then "%40"
    else if c == '#' then "%23"
    else if c == '*' then "%2A"
    else [c]
  }

  /** Reference definition: every character escaped on its own. */
  function Escaped(s: string): string
  {
    if s == [] then [] else EscapeChar(s[0]) + Escaped(s[1..])
  }

  /** `convert_p4wildcard_to_ascii`: '%' first, then '@', '#' and '*'. */
  function EncodeWildcards(s: string): string
  {
    Replace(Replace(Replace(Replace(s, "%", "%25"), "@", "%40"), "#", "%23"), "*", "%2A")
  }

  lemma EncodeAppend(a: string, b: string)
    ensures EncodeWildcards(a + b) == EncodeWildcards(a) + EncodeWildcards(b)
  {
    ReplaceOneAppend(a, b, '%', "%25");
    var a1, b1 := Replace(a, "%", "%25"), Replace(b, "%", "%25");
    ReplaceOneAppend(a1, b1, '@', "%40");
    var a2, b2 := Replace(a1, "@", "%40"), Replace(b1, "@", "%40");
    ReplaceOneAppend(a2, b2, '#', "%23");
    var a3, b3 := Replace(a2, "#", "%23"), Replace(b2, "#", "%23");
    ReplaceOneAppend(a3, b3, '*', "%2A");
  }

  /** Replacing one character in a string that does not hold it. */
  lemma ReplaceOneMissing(s: string, x: char, rep: string)
    requires x !in s
    ensures Replace(s, [x], rep) == s
  {
    ReplaceOneAbsent(s, x, rep);
  }

  /** Replacing one character in a one-character string. */
  lemma ReplaceOneSingle(c: char, x: char, rep: string)
    ensures Replace([c], [x], rep) == if c == x then rep else [c]
  {
    assert [c][1..] == [];
    if c == x {
      assert Replace([c], [x], rep) == rep + Replace([], [x], rep);
    }
  }

  lemma EncodeChar(c: char)
    ensures EncodeWildcards([c]) == EscapeChar(c)
  {
    ReplaceOneSingle(c, '%', "%25");
    var s1 := Replace([c], "%", "%25");
    if c == '%' {
      ReplaceOneMissing(s1, '@', "%40");
      ReplaceOneMissing(s1, '#', "%23");
      ReplaceOneMissing(s1, '*', "%2A");
    } else {
      ReplaceOneSingle(c, '@', "%40");
      var s2 := Replace(s1, "@", "%40");
      if c == '@' {
        ReplaceOneMissing(s2, '#', "%23");
        ReplaceOneMissing(s2, '*', "%2A");
      } else {
        ReplaceOneSingle(c, '#', "%23");
        var s3 := Replace(s2, "#", "%23");
        if c == '#' {
          ReplaceOneMissing(s3, '*', "%2A");
        } else {
          ReplaceOneSingle(c, '*', "%2A");
        }
      }
    }
  }

  /** The chained replacements escape each character on its own: the
    * escapes inserted by one step are never touched by a later one. */
  lemma {:induction false} EncodeIsEscaped(s: string)
    ensures EncodeWildcards(s) == Escaped(s)
  {
    if s == [] {
      assert Replace([], "%", "%25") == [];
      assert Replace([], "@", "%40") == [];
      assert Replace([], "#", "%23") == [];
      assert Replace([], "*", "%2A") == [];
    } else {
      assert s == [s[0]] + s[1..];
      EncodeAppend([s[0]], s[1..]);
      EncodeChar(s[0]);
      EncodeIsEscaped(s[1..]);
    }
  }

  predicate IsWildcard(c: char) { c == '@' || c == '#' || c == '*' }

  lemma {:induction false} EscapedHasNoWildcard(s: string)
    ensures forall i :: 0 <= i < |Escaped(s)| ==> !IsWildcard(Escaped(s)[i])
  {
    if s != [] {
      EscapedHasNoWildcard(s[1..]);
      var e := EscapeChar(s[0]);
      assert forall i :: 0 <= i < |e| ==> !IsWildcard(e[i]);
      var r := Escaped(s[1..]);
      forall i | 0 <= i < |e + r| ensures !IsWildcard((e + r)[i]) {
        if i >= |e| { assert (e + r)[i] == r[i - |e|]; }
      }
    }
  }

  /** Escaped names hold no '@', '#' or '*'. */
  lemma EncodeHasNoWildcard(s: string)
    ensures forall i :: 0 <= i < |EncodeWildcards(s)| ==> !IsWildcard(EncodeWildcards(s)[i])
  {
    EncodeIsEscaped(s);
    EscapedHasNoWildcard(s);
  }

  // ---------------------------------------------------------------------
  // Unescaping as written

  /** `convert_ascii_to_p4wildcard` as written: "%25" is undone first. */
  function DecodeWildcardsAsWritten(s: string): string
  {
    Replace(Replace(Replace(Replace(s, "%25", "%"), "%40", "@"), "%23", "#"), "%2A", "*")
  }

  /** An escaped text seen as pieces: single characters other than '%' and
    * three-character escapes whose last two characters are not '%'. */
  predicate WellFormedPiece(p: string)
  {
    (|p| == 1 && p[0] != '%') || (|p| == 3 && p[0] == '%' && p[1] != '%' && p[2] != '%')
  }

  function Concat(ps: seq<string>): string
  {
    if ps == [] then [] else ps[0] + Concat(ps[1..])
  }

  /** Each piece equal to `pat` replaced by `rep`. */
  function MapPieces(ps: seq<string>, pat: string, rep: string): (r: seq<string>)
    ensures |r| == |ps|
  {
    if ps == [] then [] else [if ps[0] == pat then rep else ps[0]] + MapPieces(ps[1..], pat, rep)
  }

  /** A replacement skips a first character that cannot start the pattern. */
  lemma ReplaceSkip(x: string, pat: string, rep: string)
    requires |pat| > 0 && x != [] && x[0] != pat[0]
    ensures Replace(x, pat, rep) == [x[0]] + Replace(x[1..], pat, rep)
  {
    if |x| < |pat| {
      assert Replace(x[1..], pat, rep) == x[1..];
      assert x == [x[0]] + x[1..];
    } else {
      assert x[..|pat|][0] == x[0];
    }
  }

  /** Replacing a three-character escape acts piece by piece. */
  lemma {:induction false} ReplacePieces(ps: seq<string>, pat: string, rep: string)
    requires forall i :: 0 <= i < |ps| ==> WellFormedPiece(ps[i])
    requires |pat| == 3 && pat[0] == '%'
    ensures Replace(Concat(ps), pat, rep) == Concat(MapPieces(ps, pat, rep))
  {
    if ps != [] {
      var p, rest := ps[0], Concat(ps[1..]);
      assert forall i :: 0 <= i < |ps[1..]| ==> ps[1..][i] == ps[i + 1];
      ReplacePieces(ps[1..], pat, rep);
      var s := p + rest;
      if |p| == 1 {
        ReplaceSkip(s, pat, rep);
        assert s[1..] == rest;
      } else if p == pat {
        assert s[..3] == pat;
        assert s[3..] == rest;
      } else {
        assert s[..3] == p;
        assert s[1..][1..] == s[2..] && s[2..][1..] == rest;
        ReplaceSkip(s[2..], pat, rep);
        ReplaceSkip(s[1..], pat, rep);
        assert p == [s[0], s[1], s[2]];
      }
    }
  }

  lemma {:induction false} MapPiecesWellFormed(ps: seq<string>, pat: string, c: char)
    requires forall i :: 0 <= i < |ps| ==> WellFormedPiece(ps[i])
    requires c != '%'
    ensures forall i :: 0 <= i < |ps| ==> WellFormedPiece(MapPieces(ps, pat, [c])[i])
  {
    if ps != [] {
      assert forall i :: 0 <= i < |ps[1..]| ==> ps[1..][i] == ps[i + 1];
      MapPiecesWellFormed(ps[1..], pat, c);
      var r := MapPieces(ps, pat, [c]);
      assert forall i :: 1 <= i < |ps| ==> r[i] == MapPieces(ps[1..], pat, [c])[i - 1];
    }
  }

  /** The pieces of an escaped '%'-free name. */
  function EscapePieces(s: string): seq<string>
  {
    if s == [] then [] else [EscapeChar(s[0])] + EscapePieces(s[1..])
  }

  function Singles(s: string): seq<string>
  {
    if s == [] then [] else [[s[0]]] + Singles(s[1..])
  }

  lemma {:induction false} EscapePiecesSpec(s: string)
    requires '%' !in s
    ensures Concat(EscapePieces(s)) == Escaped(s)
    ensures forall i :: 0 <= i < |EscapePieces(s)| ==> WellFormedPiece(EscapePieces(s)[i])
    ensures |EscapePieces(s)| == |s|
  {
    if s != [] {
      assert '%' !in s[1..] by { assert forall i :: 0 <= i < |s[1..]| ==> s[1..][i] == s[i + 1]; }
      EscapePiecesSpec(s[1..]);
      var ps := EscapePieces(s);
      assert forall i :: 1 <= i < |ps| ==> ps[i] == EscapePieces(s[1..])[i - 1];
    }
  }

  /** The four undo steps, applied to the pieces of a '%'-free name, give
    * back its characters. */
  lemma {:induction false} UndoPieces(s: string)
    requires '%' !in s
    ensures MapPieces(MapPieces(MapPieces(MapPieces(EscapePieces(s), "%25", "%"), "%40", "@"), "%23", "#"), "%2A", "*")
         == Singles(s)
  {
    if s != [] {
      assert '%' !in s[1..] by { assert forall i :: 0 <= i < |s[1..]| ==> s[1..][i] == s[i + 1]; }
      UndoPieces(s[1..]);
    }
  }

  lemma {:induction false} ConcatSingles(s: string)
    ensures Concat(Singles(s)) == s
  {
    if s != [] {
      ConcatSingles(s[1..]);
    }
  }

  /** For names without '%' the as-written decoder undoes the encoder. */
  lemma DecodeAsWrittenRoundTrip(s: string)
    requires '%' !in s
    ensures DecodeWildcardsAsWritten(EncodeWildcards(s)) == s
  {
    EncodeIsEscaped(s);
    EscapePiecesSpec(s);
    var p0 := EscapePieces(s);
    ReplacePieces(p0, "%25", "%");
    var p1 := MapPieces(p0, "%25", "%");
    assert p1 == p0 by { NoPercentPiece(s); }
    ReplacePieces(p1, "%40", "@");
    var p2 := MapPieces(p1, "%40", "@");
    MapPiecesWellFormed(p1, "%40", '@');
    ReplacePieces(p2, "%23", "#");
    var p3 := MapPieces(p2, "%23", "#");
    MapPiecesWellFormed(p2, "%23", '#');
    ReplacePieces(p3, "%2A", "*");
    UndoPieces(s);
    ConcatSingles(s);
  }

  /** No piece of a '%'-free name is "%25". */
  lemma {:induction false} NoPercentPiece(s: string)
    requires '%' !in s
    ensures MapPieces(EscapePieces(s), "%25", "%") == EscapePieces(s)
  {
    if s != [] {
      assert '%' !in s[1..] by { assert forall i :: 0 <= i < |s[1..]| ==> s[1..][i] == s[i + 1]; }
      NoPercentPiece(s[1..]);
    }
  }

  /** A name holding a literal "%40" does not survive: its escaped form
    * "%2540" loses "25" in the first step and then reads as "@". */
  lemma DecodeAsWrittenLosesPercent()
    ensures EncodeWildcards("%40") == "%2540"
    ensures DecodeWildcardsAsWritten("%2540") == "@"
  {
    EncodeIsEscaped("%40");
    EscapePercentForty();
    FirstStepDropsEscape();
    var qs := ["%40"];
    assert Concat(qs) == "%40";
    ReplacePieces(qs, "%40", "@");
    assert MapPieces(qs, "%40", "@") == ["@"];
    assert Concat(["@"]) == "@";
    assert Replace("@", "%23", "#") == "@";
    assert Replace("@", "%2A", "*") == "@";
  }

  lemma EscapePercentForty()
    ensures Escaped("%40") == "%2540"
  {
    assert Escaped("%40") == "%25" + Escaped("40");
    assert Escaped("40") == "4" + Escaped("0");
    assert Escaped("0") == "0" + Escaped("");
  }

  /** The first replacement of the as-written decoder turns "%2540" into
    * "%40". */
  lemma FirstStepDropsEscape()
    ensures Replace("%2540", "%25", "%") == "%40"
  {
    var ps := ["%25", "4", "0"];
    assert Concat(ps) == "%2540" by {
      assert Concat(ps[2..]) == "0";
      assert Concat(ps[1..]) == "4" + "0";
    }
    ReplacePieces(ps, "%25", "%");
    var ms := MapPieces(ps, "%25", "%");
    assert ms == ["%", "4", "0"] by {
      assert MapPieces(ps[2..], "%25", "%") == ["0"];
      assert MapPieces(ps[1..], "%25", "%") == ["4", "0"];
    }
    assert Concat(ms) == "%40" by {
      assert Concat(ms[2..]) == "0";
      assert Concat(ms[1..]) == "4" + "0";
    }
  }

  // ---------------------------------------------------------------------
  // Unescaping, corrected

  /** Unescaping in one left-to-right pass, so that the "%" produced by
    * "%25" is never read again as the start of another escape. */
  function DecodeWildcards(s: string): string
    decreases |s|
  {
    if s == [] then []
    else if StartsWith(s, "%25") then "%" + DecodeWildcards(s[3..])
    else if StartsWith(s, "%40") then "@" + DecodeWildcards(s[3..])
    else if StartsWith(s, "%23") then "#" + DecodeWildcards(s[3..])
    else if StartsWith(s, "%2A") then "*" + DecodeWildcards(s[3..])
    else [s[0]] + DecodeWildcards(s[1..])
  }

  lemma DecodeEscapeChar(c: char, rest: string)
    ensures DecodeWildcards(EscapeChar(c) + rest) == [c] + DecodeWildcards(rest)
  {
    var e := EscapeChar(c) + rest;
    if c == '%' || c == '@' || c == '#' || c == '*' {
      var code := EscapeChar(c);
      assert |code| == 3 && e[..3] == code && e[3..] == rest;
      assert e[0] == '%' && e[1] == code[1] && e[2] == code[2];
      assert StartsWith(e, "%25") <==> c == '%';
      assert StartsWith(e, "%40") <==> c == '@';
      assert StartsWith(e, "%23") <==> c == '#';
    } else {
      assert e[0] == c && e[1..] == rest;
      assert !StartsWith(e, "%25") && !StartsWith(e, "%40") && !StartsWith(e, "%23") && !StartsWith(e, "%2A");
    }
  }

  /** The corrected decoder undoes the encoder for every name. */
  lemma {:induction false} DecodeEncode(s: string)
    ensures DecodeWildcards(EncodeWildcards(s)) == s
  {
    EncodeIsEscaped(s);
    DecodeEscaped(s);
  }

  lemma {:induction false} DecodeEscaped(s: string)
    ensures DecodeWildcards(Escaped(s)) == s
  {
    if s != [] {
      DecodeEscapeChar(s[0], Escaped(s[1..]));
      DecodeEscaped(s[1..]);
    }
  }

  /** The corrected decoder restores the name the encoder was given even
    * where the as-written one does not. */
  lemma DecodeKeepsPercent()
    ensures DecodeWildcards(EncodeWildcards("%40")) == "%40"
    ensures DecodeWildcardsAsWritten(EncodeWildcards("%40")) == "@"
  {
    DecodeEncode("%40");
    DecodeAsWrittenLosesPercent();
  }
}
