/** The HTML escaping helpers of the interface: `_esc` in
    `ui/components/detail-panel.js` and `ui/components/match-table.js`
    (five characters, the apostrophe included) and `_escapeHtml` in
    `ui/components/deck-manager.js` (four characters, the apostrophe left
    alone). Each is a chain of global `replace` calls; a global replace scans
    its input once and never rescans what it inserted. */
module Html {
  import opened Wrappers
  import opened Strings

  const Amp: string := "&amp;"
  const Lt: string := "&lt;"
  const Gt: string := "&gt;"
  const Quot: string := "&quot;"
  const Apos: string := "&#39;"

  /** The five entities the helpers produce. */
  const Entities: seq<string> := [Amp, Lt, Gt, Quot, Apos]

  /** `s.replace(/c/g, e)`: every `c` becomes `e`, in one left-to-right pass. */
  function ReplaceAll(s: string, c: char, e: string): (r: string)
    ensures c !in s ==> r == s
  {
    if |s| == 0 then ""
    else (if s[0] == c then e else [s[0]]) + ReplaceAll(s[1..], c, e)
  }

  lemma {:induction false} ReplaceAllConcat(a: string, b: string, c: char, e: string)
    ensures ReplaceAll(a + b, c, e) == ReplaceAll(a, c, e) + ReplaceAll(b, c, e)
  {
    if |a| == 0 {
      assert a + b == b;
    } else {
      assert (a + b)[1..] == a[1..] + b;
      ReplaceAllConcat(a[1..], b, c, e);
    }
  }

  /** `_esc` as written: `&` first, then `<`, `>`, `"` and `'`. */
  function Esc(s: string): string
  {
    ReplaceAll(ReplaceAll(ReplaceAll(ReplaceAll(ReplaceAll(s, '&', Amp), '<', Lt), '>', Gt), '"', Quot), '\'', Apos)
  }

  /** `_escapeHtml` as written: `&` first, then `<`, `>` and `"`. */
  function EscapeHtml(s: string): string
  {
    ReplaceAll(ReplaceAll(ReplaceAll(ReplaceAll(s, '&', Amp), '<', Lt), '>', Gt), '"', Quot)
  }

  /** The characters that get replaced; the apostrophe only when `apos`. */
  predicate Special(c: char, apos: bool)
  {
    c == '&' || c == '<' || c == '>' || c == '"' || (apos && c == '\'')
  }

  /** What one character turns into. */
  function EntityOf(c: char, apos: bool): (r: string)
    ensures Special(c, apos) ==> r in Entities
    ensures !Special(c, apos) ==> r == [c]
  {
    if c == '&' then Amp
    else if c == '<' then Lt
    else if c == '>' then Gt
    else if c == '"' then Quot
    else if apos && c == '\'' then Apos
    else [c]
  }

  /** The reference definition: every character replaced independently. */
  function Escape(s: string, apos: bool): string
  {
    if |s| == 0 then "" else EntityOf(s[0], apos) + Escape(s[1..], apos)
  }

  lemma {:induction false} EscapeConcat(a: string, b: string, apos: bool)
    ensures Escape(a + b, apos) == Escape(a, apos) + Escape(b, apos)
  {
    if |a| == 0 {
      assert a + b == b;
    } else {
      assert (a + b)[1..] == a[1..] + b;
      EscapeConcat(a[1..], b, apos);
    }
  }

  lemma {:induction false} ReplaceSingle(c: char, d: char, e: string)
    ensures ReplaceAll([c], d, e) == if c == d then e else [c]
  {
    assert [c][1..] == [];
  }

  /** No entity holds a character a later replacement looks for. */
  lemma {:induction false} EntitiesHaveNoMarkup()
    ensures forall e :: e in Entities ==> '<' !in e && '>' !in e && '"' !in e && '\'' !in e
  {
    assert Amp == ['&', 'a', 'm', 'p', ';'];
    assert Lt == ['&', 'l', 't', ';'];
    assert Gt == ['&', 'g', 't', ';'];
    assert Quot == ['&', 'q', 'u', 'o', 't', ';'];
    assert Apos == ['&', '#', '3', '9', ';'];
  }

  /** The chain on one character is that character's entity: no later
      replacement touches what an earlier one inserted. */
  lemma {:induction false} EscOneChar(c: char)
    ensures Esc([c]) == EntityOf(c, true)
    ensures EscapeHtml([c]) == EntityOf(c, false)
  {
    EntitiesHaveNoMarkup();
    ReplaceSingle(c, '&', Amp);
    if c != '&' {
      ReplaceSingle(c, '<', Lt);
      if c != '<' {
        ReplaceSingle(c, '>', Gt);
        if c != '>' {
          ReplaceSingle(c, '"', Quot);
          if c != '"' {
            ReplaceSingle(c, '\'', Apos);
          }
        }
      }
    }
  }

  /** The literal chain of `_esc` equals the character-wise reference. */
  lemma {:induction false} EscIsCharwise(s: string)
    ensures Esc(s) == Escape(s, true)
  {
    if |s| > 0 {
      var c := s[0];
      assert s == [c] + s[1..];
      ReplaceAllConcat([c], s[1..], '&', Amp);
      var a1, b1 := ReplaceAll([c], '&', Amp), ReplaceAll(s[1..], '&', Amp);
      ReplaceAllConcat(a1, b1, '<', Lt);
      var a2, b2 := ReplaceAll(a1, '<', Lt), ReplaceAll(b1, '<', Lt);
      ReplaceAllConcat(a2, b2, '>', Gt);
      var a3, b3 := ReplaceAll(a2, '>', Gt), ReplaceAll(b2, '>', Gt);
      ReplaceAllConcat(a3, b3, '"', Quot);
      var a4, b4 := ReplaceAll(a3, '"', Quot), ReplaceAll(b3, '"', Quot);
      ReplaceAllConcat(a4, b4, '\'', Apos);
      EscOneChar(c);
      EscIsCharwise(s[1..]);
    }
  }

  /** The literal chain of `_escapeHtml` equals the character-wise reference
      that leaves apostrophes alone. */
  lemma {:induction false} EscapeHtmlIsCharwise(s: string)
    ensures EscapeHtml(s) == Escape(s, false)
  {
    if |s| > 0 {
      var c := s[0];
      assert s == [c] + s[1..];
      ReplaceAllConcat([c], s[1..], '&', Amp);
      var a1, b1 := ReplaceAll([c], '&', Amp), ReplaceAll(s[1..], '&', Amp);
      ReplaceAllConcat(a1, b1, '<', Lt);
      var a2, b2 := ReplaceAll(a1, '<', Lt), ReplaceAll(b1, '<', Lt);
      ReplaceAllConcat(a2, b2, '>', Gt);
      var a3, b3 := ReplaceAll(a2, '>', Gt), ReplaceAll(b2, '>', Gt);
      ReplaceAllConcat(a3, b3, '"', Quot);
      EscOneChar(c);
      EscapeHtmlIsCharwise(s[1..]);
    }
  }

  /** No markup character survives escaping; with `apos` no apostrophe
      either, and without it every apostrophe is kept. */
  lemma {:induction false} EscapeHasNoMarkup(s: string, apos: bool)
    ensures var r := Escape(s, apos);
      '<' !in r && '>' !in r && '"' !in r && (apos ==> '\'' !in r)
    ensures !apos ==> (('\'' in s) <==> ('\'' in Escape(s, apos)))
  {
    if |s| > 0 {
      var c, tail := s[0], s[1..];
      EscapeHasNoMarkup(tail, apos);
      EntityHasNoMarkup(c, apos);
      var e, rest := EntityOf(c, apos), Escape(tail, apos);
      assert Escape(s, apos) == e + rest;
      InConcat(e, rest, '<');
      InConcat(e, rest, '>');
      InConcat(e, rest, '"');
      InConcat(e, rest, '\'');
      assert s == [c] + tail;
      InConcat([c], tail, '\'');
    }
  }

  /** No entity holds a markup character, and only the apostrophe's own
      entity (when it is kept) holds an apostrophe. */
  lemma {:induction false} EntityHasNoMarkup(c: char, apos: bool)
    ensures var e := EntityOf(c, apos);
      '<' !in e && '>' !in e && '"' !in e && (apos ==> '\'' !in e)
    ensures !apos ==> (('\'' in EntityOf(c, apos)) <==> c == '\'')
  {
    EntitiesHaveNoMarkup();
  }

  lemma {:induction false} InConcat(a: string, b: string, x: char)
    ensures x in a + b <==> x in a || x in b
  {
    if x in a + b {
      var i :| 0 <= i < |a + b| && (a + b)[i] == x;
      if i >= |a| { assert b[i - |a|] == x; }
    }
    if x in b {
      var i :| 0 <= i < |b| && b[i] == x;
      assert (a + b)[|a| + i] == x;
    }
  }

  /** Strings without special characters come out unchanged. */
  lemma {:induction false} EscapeKeepsPlainText(s: string, apos: bool)
    requires forall i :: 0 <= i < |s| ==> !Special(s[i], apos)
    ensures Escape(s, apos) == s
  {
    if |s| > 0 {
      EscapeKeepsPlainText(s[1..], apos);
      assert s == [s[0]] + s[1..];
    }
  }

  /** Every `&` in the output opens one of the five entities, so escaping
      never produces a half-entity and never escapes an entity twice. */
  ghost predicate AmpersandsOpenEntities(r: string)
  {
    forall i :: 0 <= i < |r| && r[i] == '&' ==> exists e :: e in Entities && StartsWith(r[i..], e)
  }

  lemma {:induction false} EscapeAmpersandsOpenEntities(s: string, apos: bool)
    ensures AmpersandsOpenEntities(Escape(s, apos))
  {
    if |s| > 0 {
      EscapeAmpersandsOpenEntities(s[1..], apos);
      var e := EntityOf(s[0], apos);
      var rest := Escape(s[1..], apos);
      var r := e + rest;
      assert r == Escape(s, apos);
      forall i | 0 <= i < |r| && r[i] == '&' ensures exists e' :: e' in Entities && StartsWith(r[i..], e') {
        if i < |e| {
          assert e[i] == '&';
          assert i == 0;
          assert r[0..][..|e|] == e;
          assert e in Entities;
        } else {
          assert r[i..] == rest[i - |e|..];
          assert rest[i - |e|] == '&';
        }
      }
    }
  }

  /** The decoder for the five entities; `None` on a raw special character or
      an `&` that does not open an entity. */
  function Unescape(r: string, apos: bool): (d: Option<string>)
    decreases |r|
  {
    if |r| == 0 then Some("")
    else if r[0] == '&' then
      if StartsWith(r, Amp) then Prepend('&', Unescape(r[|Amp|..], apos))
      else if StartsWith(r, Lt) then Prepend('<', Unescape(r[|Lt|..], apos))
      else if StartsWith(r, Gt) then Prepend('>', Unescape(r[|Gt|..], apos))
      else if StartsWith(r, Quot) then Prepend('"', Unescape(r[|Quot|..], apos))
      else if StartsWith(r, Apos) then Prepend('\'', Unescape(r[|Apos|..], apos))
      else None
    else if Special(r[0], apos) then None
    else Prepend(r[0], Unescape(r[1..], apos))
  }

  function Prepend(c: char, d: Option<string>): Option<string>
  {
    match d
    case None => None
    case Some(t) => Some([c] + t)
  }

  /** Decoding an entity followed by more text. */
  lemma {:induction false} UnescapeEntity(c: char, apos: bool, rest: string)
    requires Special(c, apos)
    ensures Unescape(EntityOf(c, apos) + rest, apos) == Prepend(c, Unescape(rest, apos))
  {
    var e := EntityOf(c, apos);
    var r := e + rest;
    assert r[..|e|] == e;
    assert r[|e|..] == rest;
    assert r[0] == '&' && r[1] == e[1];
    if c != '&' {
      assert !StartsWith(r, Amp) by { assert r[1] != Amp[1]; }
    }
    if c == '>' {
      assert !StartsWith(r, Lt) by { assert r[1] != Lt[1]; }
    }
    if c == '"' {
      assert !StartsWith(r, Lt) by { assert r[1] != Lt[1]; }
      assert !StartsWith(r, Gt) by { assert r[1] != Gt[1]; }
    }
    if c == '\'' && c != '&' && c != '<' && c != '>' && c != '"' {
      assert !StartsWith(r, Lt) by { assert r[1] != Lt[1]; }
      assert !StartsWith(r, Gt) by { assert r[1] != Gt[1]; }
      assert !StartsWith(r, Quot) by { assert r[1] != Quot[1]; }
    }
  }

  /** Decoding an ordinary character followed by more text. */
  lemma {:induction false} UnescapePlain(c: char, apos: bool, rest: string)
    requires !Special(c, apos)
    ensures Unescape([c] + rest, apos) == Prepend(c, Unescape(rest, apos))
  {
    assert ([c] + rest)[1..] == rest;
  }

  /** Decoding the escaped text gives back the original text. */
  lemma {:induction false} UnescapeEscape(s: string, apos: bool)
    ensures Unescape(Escape(s, apos), apos) == Some(s)
  {
    if |s| > 0 {
      UnescapeEscape(s[1..], apos);
      var c := s[0];
      if Special(c, apos) {
        UnescapeEntity(c, apos, Escape(s[1..], apos));
      } else {
        UnescapePlain(c, apos, Escape(s[1..], apos));
      }
      assert s == [c] + s[1..];
    }
  }

  /** `_esc` and `_escapeHtml` inherit every property of the reference. */
  lemma {:induction false} EscProperties(s: string)
    ensures '<' !in Esc(s) && '>' !in Esc(s) && '"' !in Esc(s) && '\'' !in Esc(s)
    ensures AmpersandsOpenEntities(Esc(s))
    ensures Unescape(Esc(s), true) == Some(s)
    ensures (forall i :: 0 <= i < |s| ==> !Special(s[i], true)) ==> Esc(s) == s
  {
    EscIsCharwise(s);
    EscapeHasNoMarkup(s, true);
    EscapeAmpersandsOpenEntities(s, true);
    UnescapeEscape(s, true);
    if forall i :: 0 <= i < |s| ==> !Special(s[i], true) {
      EscapeKeepsPlainText(s, true);
    }
  }

  lemma {:induction false} EscapeHtmlProperties(s: string)
    ensures '<' !in EscapeHtml(s) && '>' !in EscapeHtml(s) && '"' !in EscapeHtml(s)
    ensures ('\'' in s) <==> ('\'' in EscapeHtml(s))
    ensures AmpersandsOpenEntities(EscapeHtml(s))
    ensures Unescape(EscapeHtml(s), false) == Some(s)
    ensures (forall i :: 0 <= i < |s| ==> !Special(s[i], false)) ==> EscapeHtml(s) == s
  {
    EscapeHtmlIsCharwise(s);
    EscapeHasNoMarkup(s, false);
    EscapeAmpersandsOpenEntities(s, false);
    UnescapeEscape(s, false);
    if forall i :: 0 <= i < |s| ==> !Special(s[i], false) {
      EscapeKeepsPlainText(s, false);
    }
  }

  /** The two helpers differ exactly on apostrophes. */
  lemma {:induction false} ApostropheIsTheDifference()
    ensures Esc("'") == Apos
    ensures EscapeHtml("'") == "'"
  {
    EscOneChar('\'');
  }
}
