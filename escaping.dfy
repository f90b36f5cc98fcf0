/**
  Ruby's `CGI.escapeHTML`, the `h` helper of class `Cia`, written out character by
  character, together with the entity decoding an XML reader applies to character data
  (the predefined entities of section 4.6 of XML 1.0 and the character reference
  `&#39;`).
 */
module Escaping {

  import opened Options

  /** Which characters the escaper rewrites. Up to Ruby 1.9 it rewrites `&`, `<`,
      `>` and `"`; from Ruby 2.0 on it also rewrites the apostrophe, as `&#39;`. */
  datatype Dialect = WithoutApostrophe | WithApostrophe

  /** `c` is rewritten by the escaper of dialect `d`. */
  predicate IsSpecial(c: char, d: Dialect) {
    c == '&' || c == '<' || c == '>' || c == '"' || (d == WithApostrophe && c == '\'')
  }

  /** `c` would be markup (or would end an attribute value) if it stood raw in the
      output: every special character except `&`, which starts the entities. */
  predicate IsRawMarkup(c: char, d: Dialect) {
    IsSpecial(c, d) && c != '&'
  }

  predicate NoSpecial(s: string, d: Dialect) {
    forall i :: 0 <= i < |s| ==> !IsSpecial(s[i], d)
  }

  /** `t` begins with one of the entity strings the escaper of dialect `d` emits. */
  predicate StartsEntity(t: string, d: Dialect) {
    || "&amp;" <= t || "&lt;" <= t || "&gt;" <= t || "&quot;" <= t
    || (d == WithApostrophe && "&#39;" <= t)
  }

  /** Every `&` in `r` begins an entity string of dialect `d`. */
  predicate AmpersandsStartEntities(r: string, d: Dialect) {
    forall i :: 0 <= i < |r| && r[i] == '&' ==> StartsEntity(r[i..], d)
  }

  /** The replacement text of a single character. */
  function EscapeChar(c: char, d: Dialect): (r: string)
    ensures IsSpecial(c, d) <==> r != [c]
    ensures IsSpecial(c, d) ==> |r| > 1 && r[0] == '&'
  {
    if c == '&' then "&amp;"
    else if c == '<' then "&lt;"
    else if c == '>' then "&gt;"
    else if c == '"' then "&quot;"
    else if c == '\'' && d == WithApostrophe then "&#39;"
    else [c]
  }

  /** The texts `f` gives for the characters of `s`, joined in order. */
  function FlatMap(s: string, f: char -> string): (r: string)
    decreases |s|
  {
    if s == [] then [] else f(s[0]) + FlatMap(s[1..], f)
  }

  /** `CGI.escapeHTML(s)`: every character replaced by its replacement text, in order. */
  function Escape(s: string, d: Dialect): (r: string)
  {
    FlatMap(s, c => EscapeChar(c, d))
  }

  lemma {:induction false} FlatMapConcat(a: string, b: string, f: char -> string)
    ensures FlatMap(a + b, f) == FlatMap(a, f) + FlatMap(b, f)
    decreases |a|
  {
    if a == [] {
      assert a + b == b;
    } else {
      assert (a + b)[1..] == a[1..] + b;
      FlatMapConcat(a[1..], b, f);
    }
  }

  /** The replacement text of any character is free of raw markup, and its only
      `&` is the one that opens its entity. */
  lemma EscapeCharShape(c: char, d: Dialect)
    ensures var e := EscapeChar(c, d);
      && (forall i :: 0 <= i < |e| ==> !IsRawMarkup(e[i], d))
      && (forall i :: 0 <= i < |e| && e[i] == '&' ==> i == 0 && StartsEntity(e, d))
  {
    var e := EscapeChar(c, d);
    if c == '&' { assert e == "&amp;"; }
    else if c == '<' { assert e == "&lt;"; }
    else if c == '>' { assert e == "&gt;"; }
    else if c == '"' { assert e == "&quot;"; }
    else if c == '\'' && d == WithApostrophe { assert e == "&#39;"; }
    else { assert e == [c]; }
  }

  /** The escaped text holds no raw `<`, `>` or `"` (nor, from Ruby 2.0 on, `'`). */
  lemma {:induction false} EscapeNoRawMarkup(s: string, d: Dialect)
    ensures forall i :: 0 <= i < |Escape(s, d)| ==> !IsRawMarkup(Escape(s, d)[i], d)
    decreases |s|
  {
    if s != [] {
      var e, rest := EscapeChar(s[0], d), Escape(s[1..], d);
      EscapeCharShape(s[0], d);
      EscapeNoRawMarkup(s[1..], d);
      forall i | 0 <= i < |e + rest| ensures !IsRawMarkup((e + rest)[i], d) {
        if i >= |e| { assert (e + rest)[i] == rest[i - |e|]; }
      }
    }
  }

  /** The character and the length of the entity or character reference that
      `t` begins with, if it begins with one an XML reader decodes. */
  function EntityAt(t: string): (r: Option<(char, nat)>)
    ensures r.Some? ==> 0 < r.value.1 <= |t|
  {
    if t == [] || t[0] != '&' then None
    else if "&amp;" <= t then Some(('&', 5))
    else if "&lt;" <= t then Some(('<', 4))
    else if "&gt;" <= t then Some(('>', 4))
    else if "&quot;" <= t then Some(('"', 6))
    else if "&apos;" <= t then Some(('\'', 6))
    else if "&#39;" <= t then Some(('\'', 5))
    else None
  }

  /** The entity decoding an XML reader applies to character data: the predefined
      entities and the reference `&#39;` become their characters, and every other
      character is copied. An `&` that begins none of them, which a reader would
      reject, is copied too. */
  function Unescape(t: string): (r: string)
    ensures |r| <= |t|
    decreases |t|
  {
    if t == [] then []
    else match EntityAt(t)
      case Some((c, n)) => [c] + Unescape(t[n..])
      case None => [t[0]] + Unescape(t[1..])
  }

  /** Escaping works character by character: it distributes over concatenation. */
  lemma EscapeConcat(a: string, b: string, d: Dialect)
    ensures Escape(a + b, d) == Escape(a, d) + Escape(b, d)
  {
    FlatMapConcat(a, b, c => EscapeChar(c, d));
  }

  /** Every `&` in the output begins one of the entity strings the escaper emits. */
  lemma {:induction false} EscapeAmpersands(s: string, d: Dialect)
    ensures AmpersandsStartEntities(Escape(s, d), d)
    decreases |s|
  {
    if s != [] {
      var e, rest := EscapeChar(s[0], d), Escape(s[1..], d);
      EscapeCharShape(s[0], d);
      EscapeAmpersands(s[1..], d);
      var r := e + rest;
      forall i | 0 <= i < |r| && r[i] == '&' ensures StartsEntity(r[i..], d) {
        if i < |e| {
          assert r[i] == e[i];
          assert i == 0 && StartsEntity(e, d);
          StartsEntityExtend(e, rest, d);
          assert r[i..] == r;
        } else {
          var j := i - |e|;
          assert rest[j] == r[i] == '&';
          assert StartsEntity(rest[j..], d);
          assert r[i..] == rest[j..];
        }
      }
    }
  }

  lemma StartsEntityExtend(e: string, t: string, d: Dialect)
    requires StartsEntity(e, d)
    ensures StartsEntity(e + t, d)
  {
    var u := e + t;
    if "&amp;" <= e { assert u[..5] == e[..5]; }
    else if "&lt;" <= e { assert u[..4] == e[..4]; }
    else if "&gt;" <= e { assert u[..4] == e[..4]; }
    else if "&quot;" <= e { assert u[..6] == e[..6]; }
    else { assert u[..5] == e[..5]; }
  }

  lemma EntityAtEscapeChar(c: char, d: Dialect, t: string)
    ensures EntityAt(EscapeChar(c, d) + t)
         == if IsSpecial(c, d) then Some((c, |EscapeChar(c, d)|)) else None
  {
    var e := EscapeChar(c, d);
    var u := e + t;
    assert u[..|e|] == e;
    if c == '&' {
      assert "&amp;" <= u;
    } else if c == '<' {
      assert u[1] == 'l';
    } else if c == '>' {
      assert u[1] == 'g';
    } else if c == '"' {
      assert u[1] == 'q';
    } else if c == '\'' && d == WithApostrophe {
      assert u[1] == '#';
    } else {
      assert u[0] == c;
    }
  }

  lemma UnescapeEscapeChar(c: char, d: Dialect, t: string)
    ensures Unescape(EscapeChar(c, d) + t) == [c] + Unescape(t)
  {
    var e := EscapeChar(c, d);
    var u := e + t;
    EntityAtEscapeChar(c, d, t);
    assert u[|e|..] == t;
    if !IsSpecial(c, d) {
      assert u[0] == c && u[1..] == t;
    }
  }

  lemma EscapeFirst(s: string, d: Dialect)
    requires s != []
    ensures Escape(s, d) == EscapeChar(s[0], d) + Escape(s[1..], d)
  {
  }

  lemma UnescapeEscapeStep(s: string, d: Dialect, t: string)
    requires s != []
    requires Unescape(Escape(s[1..], d) + t) == s[1..] + Unescape(t)
    ensures Unescape(Escape(s, d) + t) == s + Unescape(t)
  {
    var e, rest := EscapeChar(s[0], d), Escape(s[1..], d);
    EscapeFirst(s, d);
    Regroup(e, rest, t);
    UnescapeEscapeChar(s[0], d, rest + t);
    Regroup([s[0]], s[1..], Unescape(t));
    assert [s[0]] + s[1..] == s;
  }

  lemma Regroup(a: string, b: string, c: string)
    ensures a + b + c == a + (b + c)
  {
  }

  /** Round trip: decoding escaped text gives the text back, whatever follows it. */
  lemma {:induction false} UnescapeEscapeThen(s: string, d: Dialect, t: string)
    ensures Unescape(Escape(s, d) + t) == s + Unescape(t)
    decreases |s|
  {
    if s == [] {
      assert Escape(s, d) + t == t;
    } else {
      UnescapeEscapeThen(s[1..], d, t);
      UnescapeEscapeStep(s, d, t);
    }
  }

  lemma UnescapeEscape(s: string, d: Dialect)
    ensures Unescape(Escape(s, d)) == s
  {
    UnescapeEscapeThen(s, d, []);
    assert Escape(s, d) + [] == Escape(s, d);
  }

  /** Different texts never escape to the same text. */
  lemma EscapeInjective(a: string, b: string, d: Dialect)
    requires Escape(a, d) == Escape(b, d)
    ensures a == b
  {
    UnescapeEscape(a, d);
    UnescapeEscape(b, d);
  }

  /** The escaper changes a text exactly when the text holds a special character:
      a text without any (such as "duck for cover") escapes to itself, and one with
      any escapes to something strictly longer. */
  lemma {:induction false} EscapeFixedPoint(s: string, d: Dialect)
    ensures Escape(s, d) == s <==> NoSpecial(s, d)
    ensures !NoSpecial(s, d) ==> |Escape(s, d)| > |s|
    decreases |s|
  {
    if s != [] {
      EscapeFixedPoint(s[1..], d);
      var e := EscapeChar(s[0], d);
      assert Escape(s, d) == e + Escape(s[1..], d);
      if IsSpecial(s[0], d) {
        assert |e| > 1;
      } else {
        assert e == [s[0]];
        assert NoSpecial(s, d) <==> NoSpecial(s[1..], d) by {
          if NoSpecial(s[1..], d) {
            forall i | 0 <= i < |s| ensures !IsSpecial(s[i], d) {
              if i > 0 { assert s[i] == s[1..][i - 1]; }
            }
          }
        }
        assert s == [s[0]] + s[1..];
      }
    }
  }

  /** The two dialects agree on every text without an apostrophe. */
  lemma {:induction false} DialectsAgree(s: string)
    requires forall i :: 0 <= i < |s| ==> s[i] != '\''
    ensures Escape(s, WithoutApostrophe) == Escape(s, WithApostrophe)
    decreases |s|
  {
    if s != [] {
      DialectsAgree(s[1..]);
    }
  }
}
