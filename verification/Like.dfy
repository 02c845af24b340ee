/**
 * SQL LIKE with an escape character, and the literal substring patterns that the
 * store builds for it.
 */
module Like {

  /** LIKE ignores case for ASCII letters only. */
  function Fold(c: char): char {
    if 'A' <= c <= 'Z' then c - 'A' + 'a' else c
  }

  /** Two characters count as the same when they are, or are one ASCII letter in both cases. */
  lemma FoldExactly(a: char, b: char)
    ensures Fold(a) == Fold(b) <==>
      a == b || ('A' <= a <= 'Z' && b as int == a as int + 32) || ('A' <= b <= 'Z' && a as int == b as int + 32)
  {
  }

  predicate SameText(a: string, b: string) {
    |a| == |b| && forall i :: 0 <= i < |a| ==> Fold(a[i]) == Fold(b[i])
  }

  /** Does the text match the pattern?  A trailing lone escape character matches nothing. */
  predicate Matches(pattern: string, text: string, escaping: bool)
    decreases |pattern| + |text|
  {
    if |pattern| == 0 then |text| == 0
    else if escaping && pattern[0] == '\\' then
      |pattern| >= 2 && |text| > 0 && Fold(pattern[1]) == Fold(text[0]) && Matches(pattern[2..], text[1..], escaping)
    else if pattern[0] == '%' then
      Matches(pattern[1..], text, escaping) || (|text| > 0 && Matches(pattern, text[1..], escaping))
    else if pattern[0] == '_' then |text| > 0 && Matches(pattern[1..], text[1..], escaping)
    else |text| > 0 && Fold(pattern[0]) == Fold(text[0]) && Matches(pattern[1..], text[1..], escaping)
  }

  function Replace(s: string, c: char, r: string): string {
    if |s| == 0 then "" else (if s[0] == c then r else [s[0]]) + Replace(s[1..], c, r)
  }

  /** The pattern for "contains v": the three replacements in the order of the store. */
  function Pattern(v: string): string {
    "%" + Replace(Replace(Replace(v, '\\', "\\\\"), '%', "\\%"), '_', "\\_") + "%"
  }

  predicate StartsWith(text: string, v: string) {
    |v| <= |text| && SameText(text[..|v|], v)
  }

  /** Does v occur in the text, up to the case of ASCII letters? */
  predicate Contains(text: string, v: string) {
    exists i :: 0 <= i <= |text| && StartsWith(text[i..], v)
  }

  /** Does v stand in the text from character i on, letter by letter? */
  predicate StandsAt(text: string, v: string, i: int) {
    0 <= i <= |text| - |v| && forall k :: 0 <= k < |v| ==> Fold(text[i + k]) == Fold(v[k])
  }

  lemma StartsAt(text: string, v: string, i: int)
    requires 0 <= i <= |text|
    ensures StartsWith(text[i..], v) <==> StandsAt(text, v, i)
  {
    hide Fold;
    if |v| <= |text| - i {
      assert forall k :: 0 <= k < |v| ==> text[i..][..|v|][k] == text[i + k];
    }
  }

  lemma ContainsExactly(text: string, v: string)
    ensures Contains(text, v) <==> exists i :: StandsAt(text, v, i)
  {
    forall i | 0 <= i <= |text|
      ensures StartsWith(text[i..], v) <==> StandsAt(text, v, i)
    {
      StartsAt(text, v, i);
    }
    assert forall i :: StandsAt(text, v, i) ==> 0 <= i <= |text|;
    hide StartsWith, StandsAt;
  }

  // ---- proofs -----------------------------------------------------------------------

  predicate Special(c: char) {
    c == '\\' || c == '%' || c == '_'
  }

  /** Every special character with a backslash in front of it. */
  function Escape(v: string): string {
    if |v| == 0 then "" else (if Special(v[0]) then ['\\', v[0]] else [v[0]]) + Escape(v[1..])
  }

  lemma {:induction false} ReplaceConcat(a: string, b: string, c: char, r: string)
    ensures Replace(a + b, c, r) == Replace(a, c, r) + Replace(b, c, r)
  {
    if |a| == 0 {
      assert a + b == b;
    } else {
      ReplaceConcat(a[1..], b, c, r);
      var head, x, y := if a[0] == c then r else [a[0]], Replace(a[1..], c, r), Replace(b, c, r);
      assert (a + b)[0] == a[0] && (a + b)[1..] == a[1..] + b;
      assert Replace(a + b, c, r) == head + Replace(a[1..] + b, c, r);
      hide Replace;
      assert head + (x + y) == (head + x) + y;
    }
  }

  /** No replacement touches what an earlier one wrote. */
  lemma {:induction false} ReplacementsEscape(v: string)
    ensures Pattern(v) == "%" + Escape(v) + "%"
  {
    if |v| > 0 {
      ReplacementsEscape(v[1..]);
      var head := if v[0] == '\\' then "\\\\" else [v[0]];
      var rest := Replace(v[1..], '\\', "\\\\");
      ReplaceConcat(head, rest, '%', "\\%");
      var head' := if v[0] == '\\' then "\\\\" else if v[0] == '%' then "\\%" else [v[0]];
      assert Replace(head, '%', "\\%") == head' by {
        ReplaceOne(v[0], '%', "\\%");
        assert head == "\\\\" ==> head[1..] == "\\";
      }
      ReplaceConcat(head', Replace(rest, '%', "\\%"), '_', "\\_");
      assert Replace(head', '_', "\\_") == if Special(v[0]) then ['\\', v[0]] else [v[0]] by {
        ReplaceOne(v[0], '_', "\\_");
        assert |head'| == 2 ==> head'[1..] == [v[0]];
      }
      var body := Replace(Replace(rest, '%', "\\%"), '_', "\\_");
      assert Pattern(v[1..])[1..|body| + 1] == body;
      assert ("%" + Escape(v[1..]) + "%")[1..|body| + 1] == Escape(v[1..]);
    }
  }

  lemma ReplaceOne(d: char, c: char, r: string)
    ensures Replace([d], c, r) == if d == c then r else [d]
  {
    assert Replace([d][1..], c, r) == "";
  }

  lemma {:induction false} MatchesAll(text: string)
    ensures Matches("%", text, true) && Matches("%", text, false)
  {
    assert "%"[1..] == "";
    if |text| > 0 {
      MatchesAll(text[1..]);
    }
  }

  /** An escaped literal followed by "%" matches exactly the texts that start with it. */
  lemma {:induction false} MatchesLiteral(v: string, text: string)
    ensures Matches(Escape(v) + "%", text, true) <==> StartsWith(text, v)
  {
    if |v| == 0 {
      assert Escape(v) + "%" == "%";
      MatchesAll(text);
    } else {
      var p := Escape(v) + "%";
      assert p == (if Special(v[0]) then ['\\', v[0]] else [v[0]]) + (Escape(v[1..]) + "%");
      if |text| > 0 {
        MatchesLiteral(v[1..], text[1..]);
        assert p[if Special(v[0]) then 2 else 1..] == Escape(v[1..]) + "%";
        if StartsWith(text, v) {
          assert text[..|v|][0] == text[0];
          assert text[1..][..|v| - 1] == text[..|v|][1..];
        }
        if StartsWith(text[1..], v[1..]) && Fold(text[0]) == Fold(v[0]) {
          assert text[..|v|] == [text[0]] + text[1..][..|v| - 1];
        }
      }
    }
  }

  lemma {:induction false} MatchesAnywhere(q: string, text: string)
    ensures Matches("%" + q, text, true) <==> exists i :: 0 <= i <= |text| && Matches(q, text[i..], true)
  {
    assert ("%" + q)[1..] == q;
    assert text[0..] == text;
    if |text| > 0 {
      MatchesAnywhere(q, text[1..]);
      if i :| 0 <= i < |text| && Matches(q, text[1..][i..], true) {
        assert text[1..][i..] == text[i + 1..];
      }
      if i :| 0 < i <= |text| && Matches(q, text[i..], true) {
        assert text[1..][i - 1..] == text[i..];
      }
    }
  }

  /** The escaped pattern matches exactly the texts that contain v literally. */
  lemma PatternIsContains(v: string, text: string)
    ensures Matches(Pattern(v), text, true) <==> Contains(text, v)
  {
    ReplacementsEscape(v);
    var q := Escape(v) + "%";
    assert Pattern(v) == "%" + q;
    MatchesAnywhere(q, text);
    forall i | 0 <= i <= |text|
      ensures Matches(q, text[i..], true) <==> StartsWith(text[i..], v)
    {
      MatchesLiteral(v, text[i..]);
    }
  }

  /** Without special characters, "v%" is a plain prefix test even when nothing is escaped. */
  lemma {:induction false} MatchesPrefix(v: string, text: string)
    requires forall i :: 0 <= i < |v| ==> v[i] != '%' && v[i] != '_'
    ensures Matches(v + "%", text, false) <==> StartsWith(text, v)
  {
    if |v| == 0 {
      assert v + "%" == "%";
      MatchesAll(text);
    } else if |text| > 0 {
      assert (v + "%")[1..] == v[1..] + "%";
      MatchesPrefix(v[1..], text[1..]);
      if StartsWith(text, v) {
        assert text[..|v|][0] == text[0];
        assert text[1..][..|v| - 1] == text[..|v|][1..];
      }
      if StartsWith(text[1..], v[1..]) && Fold(text[0]) == Fold(v[0]) {
        assert text[..|v|] == [text[0]] + text[1..][..|v| - 1];
      }
    }
  }
}
