/** External-link hardening: every link that opens a new browsing context
    (`target="_blank"`, any ASCII case) gets the `rel` tokens `noopener` and
    `noreferrer`. */
module ExternalLinks {
  import opened Wrappers
  import opened JsStrings
  import opened Dom

  const NoOpener := "noopener"
  const NoReferrer := "noreferrer"
  const RelAttr := "rel"
  const TargetAttr := "target"
  const NewContext := "_blank"

  /** The tokens the hardening must add, in the order it adds them. */
  function Missing(tokens: seq<string>): seq<string> {
    (if NoOpener in tokens then [] else [NoOpener]) + (if NoReferrer in tokens then [] else [NoReferrer])
  }

  /** The two conditional `push`es. */
  function AddMissing(tokens: seq<string>): (r: seq<string>)
    ensures r == tokens + Missing(tokens)
    ensures NoOpener in r && NoReferrer in r
  {
    var withOpener := if NoOpener in tokens then tokens else tokens + [NoOpener];
    if NoReferrer in withOpener then withOpener else withOpener + [NoReferrer]
  }

  /** The new `rel` value from the old one (an absent `rel` reads as ""):
      `rel.split(/\s+/)`, the missing tokens pushed, then `join(" ").trim()`. */
  function HardenRel(rel: string): (r: string)
    ensures r != "" && !IsWhitespace(r[0]) && !IsWhitespace(Last(r))
    ensures SplitWs(r) == Words(rel) + Missing(Words(rel))
  {
    HardenedTokens(rel);
    Trim(Join(AddMissing(SplitWs(rel)), " "))
  }

  /** The tokens added are non-empty and whitespace-free, and only whether
      the two tokens occur matters, not empty fields. */
  lemma MissingFacts(tokens: seq<string>)
    ensures Missing(tokens) == Missing(NonEmpty(tokens))
    ensures forall i :: 0 <= i < |Missing(tokens)| ==> Missing(tokens)[i] != "" && NoWhitespace(Missing(tokens)[i])
  {
    assert NoWhitespace(NoOpener) by {
      forall i | 0 <= i < |NoOpener| ensures !IsWhitespace(NoOpener[i]) {
        assert NoOpener[i] in "noperc";
      }
    }
    assert NoWhitespace(NoReferrer) by {
      forall i | 0 <= i < |NoReferrer| ensures !IsWhitespace(NoReferrer[i]) {
        assert NoReferrer[i] in "noperfc";
      }
    }
  }

  /** The proof of `HardenRel`'s contract: the joined and trimmed tokens
      split into the words of the old value, duplicates and order kept,
      followed by the missing tokens, `noopener` first. */
  lemma HardenedTokens(rel: string)
    ensures var r := Trim(Join(AddMissing(SplitWs(rel)), " "));
      && r != "" && !IsWhitespace(r[0]) && !IsWhitespace(Last(r))
      && SplitWs(r) == Words(rel) + Missing(Words(rel))
  {
    var tokens := SplitWs(rel);
    var m := Missing(tokens);
    var joined := Join(AddMissing(tokens), " ");
    JoinedWords(tokens);
    MissingFacts(tokens);
    WordsTrim(joined);
    var r := Trim(joined);
    assert Words(r) == Words(rel) + m;
    assert NoReferrer in Words(r);
    assert r != "";
    SplitWsOfTrimmed(r);
  }

  /** The words of the joined tokens: the non-empty old tokens, then the
      missing ones. */
  lemma JoinedWords(tokens: seq<string>)
    requires forall i :: 0 <= i < |tokens| ==> NoWhitespace(tokens[i])
    ensures Words(Join(tokens + Missing(tokens), " ")) == NonEmpty(tokens) + Missing(tokens)
  {
    MissingFacts(tokens);
    WordsJoinAppend(tokens, Missing(tokens));
  }

  /** Joining whitespace-free fields followed by non-empty ones: the words
      are the non-empty fields of the first part, then the whole second
      part. */
  lemma WordsJoinAppend(a: seq<string>, b: seq<string>)
    requires forall i :: 0 <= i < |a| ==> NoWhitespace(a[i])
    requires forall i :: 0 <= i < |b| ==> b[i] != "" && NoWhitespace(b[i])
    ensures Words(Join(a + b, " ")) == NonEmpty(a) + b
  {
    var all := a + b;
    assert forall i :: 0 <= i < |all| ==> NoWhitespace(all[i]) by {
      forall i | 0 <= i < |all|
        ensures NoWhitespace(all[i])
      {
        if i >= |a| {
          assert all[i] == b[i - |a|];
        }
      }
    }
    WordsJoin(all);
    NonEmptyAppend(a, b);
    NonEmptyKeeps(b);
  }

  /** A second pass adds no token: the split value is unchanged. */
  lemma HardenRelSecondPass(rel: string)
    ensures SplitWs(HardenRel(HardenRel(rel))) == SplitWs(HardenRel(rel))
  {
    var y := HardenRel(rel);
    HardenedHasNoEmptyToken(rel);
    NonEmptyKeeps(SplitWs(y));
    assert Words(y) == SplitWs(y);
  }

  /** The hardened value splits into non-empty tokens that already hold
      both `noopener` and `noreferrer`. */
  lemma HardenedHasNoEmptyToken(rel: string)
    ensures forall i :: 0 <= i < |SplitWs(HardenRel(rel))| ==> SplitWs(HardenRel(rel))[i] != ""
    ensures Missing(SplitWs(HardenRel(rel))) == []
  {
    var tokens := SplitWs(HardenRel(rel));
    var words := Words(rel);
    var m := Missing(words);
    assert tokens == words + m;
    MissingFacts(words);
    forall i | 0 <= i < |tokens| ensures tokens[i] != "" {
      if i >= |words| {
        assert tokens[i] == m[i - |words|];
      }
    }
  }

  /** From the second pass on the value itself is fixed. */
  lemma HardenRelStable(rel: string)
    ensures var twice := HardenRel(HardenRel(rel));
      HardenRel(twice) == twice
  {
    HardenRelSecondPass(rel);
  }

  /** A word followed by a space: the trailing empty field survives the
      first pass as a double space, which the second pass removes. */
  lemma TrailingSpace(w: string)
    requires w != "" && NoWhitespace(w) && w != NoOpener && w != NoReferrer
    ensures HardenRel(w + " ") == w + "  " + NoOpener + " " + NoReferrer
    ensures HardenRel(w + "  " + NoOpener + " " + NoReferrer) == w + " " + NoOpener + " " + NoReferrer
  {
    TrailingSpaceFirstPass(w);
    TrailingSpaceSecondPass(w);
  }

  lemma TrailingSpaceFirstPass(w: string)
    requires w != "" && NoWhitespace(w) && w != NoOpener && w != NoReferrer
    ensures HardenRel(w + " ") == w + "  " + NoOpener + " " + NoReferrer
  {
    var p := w + "  " + NoOpener + " ";
    SplitWsEdges(w);
    AddMissingToWordAndEmpty(w);
    JoinWordEmptyTokens(w);
    HardenRelSteps(w + " ", [w, ""], p + NoReferrer);
    TrimKeepsReferrer(p);
  }

  lemma AddMissingToWordAndEmpty(w: string)
    requires w != NoOpener && w != NoReferrer
    ensures AddMissing([w, ""]) == [w, "", NoOpener, NoReferrer]
  {
  }

  lemma JoinWordEmptyTokens(w: string)
    ensures Join([w, "", NoOpener, NoReferrer], " ") == (w + "  " + NoOpener + " ") + NoReferrer
  {
    JoinOfFour(w, "", NoOpener, NoReferrer);
    assert w + " " + "" + " " + NoOpener + " " + NoReferrer == (w + "  " + NoOpener + " ") + NoReferrer;
  }

  lemma TrailingSpaceSecondPass(w: string)
    requires w != "" && NoWhitespace(w) && w != NoOpener && w != NoReferrer
    ensures HardenRel(w + "  " + NoOpener + " " + NoReferrer) == w + " " + NoOpener + " " + NoReferrer
  {
    var once := w + "  " + NoOpener + " " + NoReferrer;
    TrailingSpaceFirstPass(w);
    SplitWsEdges(w);
    assert Words(w + " ") == [w] by {
      assert NonEmpty([""]) == [];
      NonEmptyAppend([w], [""]);
      NonEmptyKeeps([w]);
      assert [w, ""] == [w] + [""];
    }
    assert SplitWs(once) == [w, NoOpener, NoReferrer];
    assert AddMissing([w, NoOpener, NoReferrer]) == [w, NoOpener, NoReferrer];
    JoinOfThree(w, NoOpener, NoReferrer);
    HardenRelSteps(once, [w, NoOpener, NoReferrer], w + " " + NoOpener + " " + NoReferrer);
    TrimKeepsReferrer(w + " " + NoOpener + " ");
    assert w + " " + NoOpener + " " + NoReferrer == (w + " " + NoOpener + " ") + NoReferrer;
  }

  /** `HardenRel` stage by stage. */
  lemma HardenRelSteps(rel: string, tokens: seq<string>, joined: string)
    requires SplitWs(rel) == tokens
    requires Join(AddMissing(tokens), " ") == joined
    ensures HardenRel(rel) == Trim(joined)
  {
  }

  lemma JoinOfThree(a: string, b: string, c: string)
    ensures Join([a, b, c], " ") == a + " " + b + " " + c
  {
    assert [a, b, c][1..] == [b, c];
    assert [b, c][1..] == [c];
    assert Join([b, c], " ") == b + " " + c;
    assert a + " " + (b + " " + c) == a + " " + b + " " + c;
  }

  lemma JoinOfFour(a: string, b: string, c: string, d: string)
    ensures Join([a, b, c, d], " ") == a + " " + b + " " + c + " " + d
  {
    assert [a, b, c, d][1..] == [b, c, d];
    JoinOfThree(b, c, d);
    assert a + " " + (b + " " + c + " " + d) == a + " " + b + " " + c + " " + d;
  }

  /** A string ending in "noreferrer" and starting with a non-space is
      left alone by `trim`. */
  lemma TrimKeeps(s: string)
    requires |s| > |NoReferrer| && !IsWhitespace(s[0]) && s[|s| - |NoReferrer|..] == NoReferrer
    ensures Trim(s) == s
  {
    assert s[|s| - 1] == NoReferrer[|NoReferrer| - 1];
    assert LeadingWs(s) == 0;
    assert TrailingWs(s) == 0;
    assert TrimStart(s) == s;
    assert TrimEnd(s) == s;
  }

  lemma TrimKeepsReferrer(p: string)
    requires p != [] && !IsWhitespace(p[0])
    ensures Trim(p + NoReferrer) == p + NoReferrer
  {
    var s := p + NoReferrer;
    assert s[|s| - |NoReferrer|..] == NoReferrer;
    TrimKeeps(s);
  }

  /** Tokens already present are kept, duplicates included. */
  lemma KeepsDuplicates(t: string)
    requires t != "" && NoWhitespace(t) && t != NoOpener && t != NoReferrer
    ensures SplitWs(HardenRel(t + " " + t)) == [t, t, NoOpener, NoReferrer]
  {
    assert Join([t, t], " ") == t + " " + t;
    WordsJoin([t, t]);
    NonEmptyKeeps([t, t]);
  }

  /** The selector `a[target="_blank"]`. In an HTML document the value of
      `target` is compared ASCII case-insensitively. */
  predicate OpensNewContext(a: Element) {
    GetAttribute(a, TargetAttr).Some? && ToLower(GetAttribute(a, TargetAttr).value) == NewContext
  }

  /** `target="_BLANK"` opens a new context as `_blank` does; `_self` and a
      missing `target` do not. */
  lemma TargetIgnoresCase(a: Element, b: Element, c: Element)
    requires GetAttribute(a, TargetAttr) == Some("_BLANK")
    requires GetAttribute(b, TargetAttr) == Some("_self")
    requires GetAttribute(c, TargetAttr) == None
    ensures OpensNewContext(a) && !OpensNewContext(b) && !OpensNewContext(c)
  {
    assert ToLower("_BLANK") == NewContext;
    assert ToLower("_self")[1] == 's' != NewContext[1];
  }

  /** The link's `rel` holds both tokens. */
  predicate Hardened(a: Element) {
    && GetAttribute(a, RelAttr).Some?
    && NoOpener in SplitWs(GetAttribute(a, RelAttr).value)
    && NoReferrer in SplitWs(GetAttribute(a, RelAttr).value)
  }

  /** One link: hardened when it opens a new browsing context, otherwise
      left alone. The new `rel` holds the old words, in order, then the
      missing tokens (an absent `rel` reads as ""). */
  function HardenLink(a: Element): (b: Element)
    ensures OpensNewContext(a) ==>
      var was := GetAttribute(a, RelAttr).GetOr("");
      && GetAttribute(b, RelAttr) == Some(HardenRel(was))
      && SplitWs(HardenRel(was)) == Words(was) + Missing(Words(was))
      && SameExcept(a, b, {RelAttr})
      && Hardened(b)
    ensures !OpensNewContext(a) ==> b == a
  {
    if OpensNewContext(a) then
      var rel := GetAttribute(a, RelAttr).GetOr("");
      SetAttribute(a, RelAttr, HardenRel(rel))
    else a
  }

  /** `hardenExternalLinks` over the page's links: every link opening a new
      browsing context gets the hardened `rel`, keeping its old words and
      ending up with both tokens, and no other link changes. */
  function HardenExternalLinks(links: seq<Element>): (r: seq<Element>)
    ensures |r| == |links|
    ensures forall i :: 0 <= i < |links| && OpensNewContext(links[i]) ==>
      && GetAttribute(r[i], RelAttr) == Some(HardenRel(GetAttribute(links[i], RelAttr).GetOr("")))
      && Hardened(r[i]) && SameExcept(links[i], r[i], {RelAttr})
    ensures forall i :: 0 <= i < |links| && !OpensNewContext(links[i]) ==> r[i] == links[i]
  {
    seq(|links|, i requires 0 <= i < |links| => HardenLink(links[i]))
  }
}
