/** The template renderer of the product-creation webhook
    (server.js lines 64-73): every `$tituloCAP` becomes the upper-cased
    product title, then every `$titulo` becomes the title, and, for the
    description only, every line feed becomes `<br>`. */
module Render {
  import opened Strings

  const CapToken := "$tituloCAP"
  const TitleToken := "$titulo"
  const LineFeed := "\n"
  const LineBreak := "<br>"

  /** Both passes over a template: the page title and the meta
      description.  The title is a replacement string, so JavaScript
      expands the patterns `$$`, `$&`, `` $` ``, `$'` in it. */
  function RenderText(template: string, title: string): (r: string)
    ensures '$' !in template ==> r == template
  {
    ReplaceGlobal(ReplaceGlobal(template, CapToken, Upper(title)), TitleToken, title)
  }

  /** The description: both passes, then line feeds become `<br>`. */
  function RenderDescription(template: string, title: string): (r: string)
    ensures '$' !in template && '\n' !in template ==> r == template
  {
    ReplaceGlobal(RenderText(template, title), LineFeed, LineBreak)
  }

  /** A title without replacement patterns is inserted as is: both passes
      are literal replacements. */
  lemma RenderLiteral(template: string, title: string)
    requires LiteralReplacement(title)
    ensures RenderText(template, title)
         == ReplaceAll(ReplaceAll(template, CapToken, Upper(title)), TitleToken, title)
  {
    UpperLiteral(title);
    ReplaceGlobalLiteral(template, CapToken, Upper(title));
    ReplaceGlobalLiteral(ReplaceGlobal(template, CapToken, Upper(title)), TitleToken, title);
  }

  /** The line-feed pass is always a literal replacement. */
  lemma DescriptionLiteral(template: string, title: string)
    ensures RenderDescription(template, title)
         == ReplaceAll(RenderText(template, title), LineFeed, LineBreak)
  {
    ReplaceGlobalLiteral(RenderText(template, title), LineFeed, LineBreak);
  }

  // ---------------------------------------------------------------------
  // Boundaries that no token occurrence can straddle

  /** An occurrence straddling the boundary would have to match `b[0]`
      against a later character of the pattern. */
  lemma NoStraddleBefore(a: string, b: string, pat: string)
    requires pat != [] && b != [] && b[0] !in pat[1..]
    ensures NoStraddle(a, b, pat)
  {
    forall i: nat | i < |a| < i + |pat| ensures !OccursAt(a + b, pat, i) {
      assert (a + b)[|a|] == b[0] != pat[|a| - i];
    }
  }

  /** An occurrence straddling the boundary would start inside `a` with
      the pattern's first character. */
  lemma NoStraddleAfter(a: string, b: string, pat: string)
    requires pat != []
    requires forall i :: 0 <= i < |a| && |a| < i + |pat| ==> a[i] != pat[0]
    ensures NoStraddle(a, b, pat)
  {
    forall i: nat | i < |a| < i + |pat| ensures !OccursAt(a + b, pat, i) {
      assert (a + b)[i] == a[i] != pat[0];
    }
  }

  lemma NoTitleToken(s: string)
    requires '$' !in s
    ensures !Contains(s, TitleToken) && !Contains(s, CapToken)
  {
    NoFirstChar(s, TitleToken);
    NoFirstChar(s, CapToken);
  }

  // ---------------------------------------------------------------------
  // Properties of the renderer

  /** A template without `$titulo` (hence without `$tituloCAP`) renders
      unchanged, line feeds included; the description differs from it only
      by its line breaks.  The empty template renders empty. */
  lemma RenderNoToken(template: string, title: string)
    requires !Contains(template, TitleToken)
    ensures RenderText(template, title) == template
    ensures RenderDescription(template, title) == ReplaceAll(template, LineFeed, LineBreak)
    ensures template == [] ==> RenderDescription(template, title) == []
  {
    assert !Contains(template, CapToken) by {
      forall i: nat | OccursAt(template, CapToken, i) ensures OccursAt(template, TitleToken, i) {
        assert TitleToken <= CapToken;
      }
    }
    ReplaceGlobalNoMatch(template, CapToken, Upper(title));
    ReplaceGlobalNoMatch(template, TitleToken, title);
    DescriptionLiteral(template, title);
  }

  /** The rendered description contains no line feed, not even one that
      came from the title. */
  lemma DescriptionHasNoLineFeed(template: string, title: string)
    ensures '\n' !in RenderDescription(template, title)
  {
    DescriptionLiteral(template, title);
    ReplaceAllCharGone(RenderText(template, title), '\n', LineBreak);
  }

  /** Replacement around a token whose two boundaries nothing straddles. */
  lemma ReplaceAround(a: string, token: string, b: string, pat: string, rep: string)
    requires pat != [] && NoStraddle(a, token + b, pat) && NoStraddle(token, b, pat)
    ensures ReplaceAll(a + token + b, pat, rep)
         == ReplaceAll(a, pat, rep) + ReplaceAll(token, pat, rep) + ReplaceAll(b, pat, rep)
  {
    assert a + token + b == a + (token + b);
    ReplaceAllAppend(a, token + b, pat, rep);
    ReplaceAllAppend(token, b, pat, rep);
  }

  /** Both tokens start with the only `$` they contain. */
  lemma TokensShape()
    ensures CapToken[0] == '$' && '$' !in CapToken[1..]
    ensures TitleToken[0] == '$' && '$' !in TitleToken[1..]
    ensures forall i :: 0 < i < |CapToken| ==> CapToken[i] != '$'
    ensures forall i :: 0 < i < |TitleToken| ==> TitleToken[i] != '$'
    ensures CapToken == TitleToken + "CAP"
  {
  }

  /** `$titulo` is a `$tituloCAP` only when `CAP` follows it. */
  lemma TitleTokenNotCap(post: string)
    requires !("CAP" <= post)
    ensures !OccursAt(TitleToken + post, CapToken, 0)
  {
    var s := TitleToken + post;
    assert s[0..] == s;
    if |post| >= 3 {
      assert post[..3] != "CAP";
      assert s[..10][7..] == post[..3];
      assert CapToken[7..] == "CAP";
    }
  }

  /** A `$tituloCAP` token becomes the upper-cased title and nothing else:
      it is never read as `$titulo` followed by `CAP`, and the inserted
      upper-cased title is not rescanned.  (Needs a non-empty title without
      `$`: an empty title lets text around the token join into a new
      `$titulo`, and a trailing `$` in the title can do the same.) */
  lemma RenderCapToken(pre: string, post: string, title: string)
    requires title != [] && '$' !in title
    ensures RenderText(pre + CapToken + post, title)
         == RenderText(pre, title) + Upper(title) + RenderText(post, title)
  {
    RenderLiteral(pre + CapToken + post, title);
    RenderLiteral(pre, title);
    RenderLiteral(post, title);
    var u := Upper(title);
    var a, b := ReplaceAll(pre, CapToken, u), ReplaceAll(post, CapToken, u);
    CapFirstPass(pre, post, u);
    CapSecondPass(a, b, title);
  }

  /** First pass: the token becomes the upper-cased title. */
  lemma CapFirstPass(pre: string, post: string, u: string)
    ensures ReplaceAll(pre + CapToken + post, CapToken, u)
         == ReplaceAll(pre, CapToken, u) + u + ReplaceAll(post, CapToken, u)
  {
    TokensShape();
    NoStraddleBefore(pre, CapToken + post, CapToken);
    NoStraddleAfter(CapToken, post, CapToken);
    ReplaceAround(pre, CapToken, post, CapToken, u);
    ReplaceAllPattern(CapToken, u);
  }

  /** Second pass: the upper-cased title has no `$` and starts with no
      small letter, so no `$titulo` can reach into it. */
  lemma CapSecondPass(a: string, b: string, title: string)
    requires title != [] && '$' !in title
    ensures ReplaceAll(a + Upper(title) + b, TitleToken, title)
         == ReplaceAll(a, TitleToken, title) + Upper(title) + ReplaceAll(b, TitleToken, title)
  {
    var u := Upper(title);
    TokensShape();
    assert u[0] == UpperChar(title[0]);
    assert '$' !in u;
    NoStraddleBefore(a, u + b, TitleToken);
    NoStraddleAfter(u, b, TitleToken);
    ReplaceAround(a, u, b, TitleToken, title);
    NoTitleToken(u);
    ReplaceAllNoMatch(u, TitleToken, title);
  }

  /** A `$titulo` token not followed by `CAP` becomes the title verbatim,
      whatever the title contains: the inserted title is not rescanned. */
  lemma RenderTitleToken(pre: string, post: string, title: string)
    requires LiteralReplacement(title) && !("CAP" <= post)
    ensures RenderText(pre + TitleToken + post, title)
         == RenderText(pre, title) + title + RenderText(post, title)
  {
    RenderLiteral(pre + TitleToken + post, title);
    RenderLiteral(pre, title);
    RenderLiteral(post, title);
    var u := Upper(title);
    TokensShape();
    // First pass: the token is left alone.
    NoStraddleBefore(pre, TitleToken + post, CapToken);
    forall i: nat | i < |TitleToken| < i + |CapToken|
      ensures !OccursAt(TitleToken + post, CapToken, i)
    {
      if i == 0 {
        TitleTokenNotCap(post);
      } else {
        assert (TitleToken + post)[i] == TitleToken[i];
      }
    }
    ReplaceAround(pre, TitleToken, post, CapToken, u);
    assert !Contains(TitleToken, CapToken);
    ReplaceAllNoMatch(TitleToken, CapToken, u);
    var a, b := ReplaceAll(pre, CapToken, u), ReplaceAll(post, CapToken, u);
    // Second pass: the token becomes the title.
    NoStraddleBefore(a, TitleToken + b, TitleToken);
    NoStraddleAfter(TitleToken, b, TitleToken);
    ReplaceAround(a, TitleToken, b, TitleToken, title);
    ReplaceAllPattern(TitleToken, title);
  }

  /** `$tituloCAP` is substituted before `$titulo`: `$titulo`, then text
      without `$` that does not start with `CAP`, then `$tituloCAP` renders
      as the title, the text, and the upper-cased title. */
  lemma RenderBothTokens(between: string, title: string)
    requires '$' !in between && !("CAP" <= between)
    requires title != [] && '$' !in title
    ensures RenderText(TitleToken + between + CapToken, title) == title + between + Upper(title)
  {
    CapTokenLast(TitleToken + between, title);
    TitleTokenFirst(between, title);
  }

  lemma CapTokenLast(pre: string, title: string)
    requires title != [] && '$' !in title
    ensures RenderText(pre + CapToken, title) == RenderText(pre, title) + Upper(title)
  {
    RenderCapToken(pre, [], title);
    RenderNoToken([], title);
    assert pre + CapToken + [] == pre + CapToken;
  }

  lemma TitleTokenFirst(post: string, title: string)
    requires '$' !in post && !("CAP" <= post) && '$' !in title
    ensures RenderText(TitleToken + post, title) == title + post
  {
    assert LiteralReplacement(title);
    assert RenderText(post, title) == post by {
      NoTitleToken(post);
      RenderNoToken(post, title);
    }
    assert RenderText([], title) == [] by {
      RenderNoToken([], title);
    }
    assert RenderText(TitleToken + post, title) == RenderText([], title) + title + RenderText(post, title) by {
      RenderTitleToken([], post, title);
      assert [] + TitleToken + post == TitleToken + post;
    }
  }

  // The examples below take their literals as parameters pinned by
  // `requires`: literals written in the body are unfolded eagerly by the
  // verifier, which makes these proofs run out of resources.
  /** With the title `bolsa`, `$titulo e $tituloCAP` gives `bolsa e BOLSA`. */
  lemma ExampleBothTokens(between: string, title: string)
    requires between == " e " && title == "bolsa"
    ensures RenderText(TitleToken + between + CapToken, title) == "bolsa e BOLSA"
  {
    assert '$' !in between && !("CAP" <= between) by {
      assert between[0] == ' ';
    }
    assert title != [] && '$' !in title;
    RenderBothTokens(between, title);
    UpperBolsa(title);
  }

  lemma UpperBolsa(title: string)
    requires title == "bolsa"
    ensures Upper(title) == "BOLSA"
  {
    var u := Upper(title);
    assert |u| == 5;
    assert u[0] == 'B' && u[1] == 'O' && u[2] == 'L' && u[3] == 'S' && u[4] == 'A';
  }

  /** In the description every line feed becomes `<br>`: the template
      `linha1\nlinha2` gives `linha1<br>linha2`. */
  lemma RenderLineBreak(first: string, second: string, title: string)
    requires '$' !in first && '$' !in second && '\n' !in first && '\n' !in second
    ensures RenderDescription(first + "\n" + second, title) == first + "<br>" + second
  {
    var t := first + LineFeed + second;
    assert RenderDescription(t, title) == ReplaceAll(t, LineFeed, LineBreak) by {
      assert '$' !in t;
      NoTitleToken(t);
      RenderNoToken(t, title);
    }
    LineFeedReplaced(first, second);
  }

  /** The one line feed between two lines without line feeds becomes
      `<br>`. */
  lemma LineFeedReplaced(first: string, second: string)
    requires '\n' !in first && '\n' !in second
    ensures ReplaceAll(first + LineFeed + second, LineFeed, LineBreak) == first + LineBreak + second
  {
    var rest := LineFeed + second;
    assert first + LineFeed + second == first + rest;
    NoStraddleBefore(first, rest, LineFeed);
    ReplaceAllAppend(first, rest, LineFeed, LineBreak);
    NoStraddleAfter(LineFeed, second, LineFeed);
    ReplaceAllAppend(LineFeed, second, LineFeed, LineBreak);
    ReplaceAllPattern(LineFeed, LineBreak);
    NoFirstChar(first, LineFeed);
    NoFirstChar(second, LineFeed);
    ReplaceAllNoMatch(first, LineFeed, LineBreak);
    ReplaceAllNoMatch(second, LineFeed, LineBreak);
  }

  lemma ExampleLineBreak(title: string)
    requires title == "x"
    ensures RenderDescription("linha1\nlinha2", title) == "linha1<br>linha2"
  {
    RenderLineBreak("linha1", "linha2", title);
    assert "linha1" + "\n" + "linha2" == "linha1\nlinha2";
    assert "linha1" + "<br>" + "linha2" == "linha1<br>linha2";
  }

  /** A title holding `$&` is not inserted as written: the pattern expands
      to the matched token, so `$titulo` renders as `$titulo` again. */
  lemma TitlePatternExpands(template: string, title: string)
    requires template == TitleToken && title == "$&"
    ensures RenderText(template, title) == TitleToken
  {
    assert !Contains(template, CapToken) by {
      forall i: nat | i <= |template| ensures !OccursAt(template, CapToken, i) {
        assert |template[i..]| < |CapToken|;
      }
    }
    ReplaceGlobalNoMatch(template, CapToken, Upper(title));
    assert template[0..] == template && template[..0] == [];
    assert Substitution(title, TitleToken, [], []) == TitleToken;
  }
}
