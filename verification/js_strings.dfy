/** The parts of JavaScript's string API that the site script relies on:
    `split` on a one-character separator, `split(/\s+/)`, `join`, `trim`
    and `toLowerCase` (on ASCII letters). A string is a sequence of
    Unicode scalar values. */
module JsStrings {

  /** ECMAScript WhiteSpace and LineTerminator code points: the class `\s`
      of a regular expression, and what `String.prototype.trim` removes. */
  predicate IsWhitespace(c: char) {
    || c == '\t' || c == '\n' || c == '\U{000B}' || c == '\U{000C}' || c == '\r'
    || c == ' ' || c == '\U{00A0}' || c == '\U{1680}' || ('\U{2000}' <= c <= '\U{200A}')
    || c == '\U{2028}' || c == '\U{2029}' || c == '\U{202F}' || c == '\U{205F}'
    || c == '\U{3000}' || c == '\U{FEFF}'
  }

  predicate NoWhitespace(s: string) {
    forall i :: 0 <= i < |s| ==> !IsWhitespace(s[i])
  }

  predicate AllWhitespace(s: string) {
    forall i :: 0 <= i < |s| ==> IsWhitespace(s[i])
  }

  function Last<T>(xs: seq<T>): T
    requires |xs| > 0
  {
    xs[|xs| - 1]
  }

  /* ---------------- split on one character, and join ---------------- */

  /** `s.split(sep)`: the fields between occurrences of `sep`. The empty
      string gives one empty field; a leading or trailing separator gives an
      empty first or last field. */
  function Split(s: string, sep: char): (fields: seq<string>)
    ensures |fields| >= 1
    ensures forall i :: 0 <= i < |fields| ==> sep !in fields[i]
    ensures |fields| == 1 <==> sep !in s
  {
    if s == [] then [""]
    else
      var rest := Split(s[1..], sep);
      if s[0] == sep then [""] + rest
      else [[s[0]] + rest[0]] + rest[1..]
  }

  /** `fields.join(sep)`: the fields in order, `sep` between neighbours;
      it starts with the first field. */
  function Join(fields: seq<string>, sep: string): (r: string)
    ensures fields == [] ==> r == ""
    ensures fields != [] ==> fields[0] <= r
  {
    if |fields| == 0 then ""
    else if |fields| == 1 then fields[0]
    else fields[0] + sep + Join(fields[1..], sep)
  }

  /** Joining the fields of a split with the separator gives back the string. */
  lemma {:induction false} JoinSplit(s: string, sep: char)
    ensures Join(Split(s, sep), [sep]) == s
  {
    if s != [] {
      var rest := Split(s[1..], sep);
      JoinSplit(s[1..], sep);
      if s[0] == sep {
        assert Split(s, sep) == [""] + rest;
        assert ([""] + rest)[1..] == rest;
      } else if |rest| > 1 {
        assert Split(s, sep)[1..] == rest[1..];
      }
    }
  }

  /** Splitting a string that starts with a separator-free piece `x`. */
  lemma {:induction false} SplitPrefix(x: string, y: string, sep: char)
    requires sep !in x
    ensures Split(x + y, sep) == [x + Split(y, sep)[0]] + Split(y, sep)[1..]
  {
    if x != [] {
      assert (x + y)[0] == x[0] != sep;
      assert (x + y)[1..] == x[1..] + y;
      var r := Split(x[1..] + y, sep);
      assert Split(x + y, sep) == [[x[0]] + r[0]] + r[1..];
      SplitPrefix(x[1..], y, sep);
      assert [x[0]] + (x[1..] + Split(y, sep)[0]) == x + Split(y, sep)[0];
    } else {
      assert x + y == y;
      assert x + Split(y, sep)[0] == Split(y, sep)[0];
      assert Split(y, sep) == [Split(y, sep)[0]] + Split(y, sep)[1..];
    }
  }

  /** Splitting a join of separator-free fields gives back the fields. */
  lemma {:induction false} SplitJoin(fields: seq<string>, sep: char)
    requires |fields| >= 1
    requires forall i :: 0 <= i < |fields| ==> sep !in fields[i]
    ensures Split(Join(fields, [sep]), sep) == fields
  {
    if |fields| > 1 {
      var tail := Join(fields[1..], [sep]);
      SplitJoin(fields[1..], sep);
      assert ([sep] + tail)[1..] == tail;
      assert Split([sep] + tail, sep) == [""] + fields[1..];
      assert fields[0] + [sep] + tail == fields[0] + ([sep] + tail);
      SplitPrefix(fields[0], [sep] + tail, sep);
      assert fields[0] + "" == fields[0];
      assert ([""] + fields[1..])[1..] == fields[1..];
    } else {
      SplitPrefix(fields[0], "", sep);
      assert fields[0] + "" == fields[0];
    }
  }

  /** `t` is the text after the final `sep` of `s`, or all of `s` when it
      holds no `sep`. */
  predicate IsLastField(s: string, t: string, sep: char) {
    && sep !in t
    && |t| <= |s|
    && s[|s| - |t|..] == t
    && (|t| == |s| || s[|s| - |t| - 1] == sep)
  }

  /** At most one string is the last field of `s`. */
  lemma LastFieldUnique(s: string, t: string, u: string, sep: char)
    requires IsLastField(s, t, sep) && IsLastField(s, u, sep)
    ensures t == u
  {
  }

  /** `s.split(sep).pop()` is the last field of `s`. */
  lemma {:induction false} SplitLastField(s: string, sep: char)
    ensures IsLastField(s, Last(Split(s, sep)), sep)
  {
    if s != [] {
      var rest := Split(s[1..], sep);
      SplitLastField(s[1..], sep);
      var t := Last(rest);
      if s[0] == sep || |rest| > 1 {
        assert Last(Split(s, sep)) == t;
        LastFieldOfTail(s, t, sep);
      } else {
        assert t == s[1..];
        assert Last(Split(s, sep)) == [s[0]] + t;
        assert [s[0]] + s[1..] == s;
      }
    }
  }

  /** The last field of `s[1..]` is the last field of `s` unless it is all
      of `s[1..]` and `s[0]` is not the separator. */
  lemma LastFieldOfTail(s: string, t: string, sep: char)
    requires s != [] && IsLastField(s[1..], t, sep)
    requires s[0] == sep || sep in s[1..]
    ensures IsLastField(s, t, sep)
  {
    if |t| == |s[1..]| {
      assert t == s[1..];
    }
    assert s[|s| - |t|..] == s[1..][|s[1..]| - |t|..];
    if |t| < |s[1..]| {
      assert s[|s| - |t| - 1] == s[1..][|s[1..]| - |t| - 1];
    }
  }

  /* ---------------- whitespace: trim and split(/\s+/) ---------------- */

  /** The length of the leading run of whitespace. */
  function LeadingWs(s: string): (n: nat)
    ensures n <= |s|
    ensures forall i :: 0 <= i < n ==> IsWhitespace(s[i])
    ensures n < |s| ==> !IsWhitespace(s[n])
  {
    if |s| > 0 && IsWhitespace(s[0]) then 1 + LeadingWs(s[1..]) else 0
  }

  /** The length of the trailing run of whitespace. */
  function TrailingWs(s: string): (n: nat)
    ensures n <= |s|
    ensures forall i :: |s| - n <= i < |s| ==> IsWhitespace(s[i])
    ensures n < |s| ==> !IsWhitespace(s[|s| - n - 1])
  {
    if |s| > 0 && IsWhitespace(s[|s| - 1]) then 1 + TrailingWs(s[..|s| - 1]) else 0
  }

  /** `s.trimStart()`. */
  function TrimStart(s: string): string {
    s[LeadingWs(s)..]
  }

  /** `s.trimEnd()`. */
  function TrimEnd(s: string): string {
    s[..|s| - TrailingWs(s)]
  }

  /** `s.trim()`: the infix of `s` left after removing whitespace at both
      ends; it is empty exactly when `s` is all whitespace. */
  function Trim(s: string): (r: string)
    ensures var k := LeadingWs(s);
      && k + |r| <= |s|
      && r == s[k..k + |r|]
      && AllWhitespace(s[..k])
      && AllWhitespace(s[k + |r|..])
    ensures r == [] || (!IsWhitespace(r[0]) && !IsWhitespace(r[|r| - 1]))
    ensures r == [] <==> AllWhitespace(s)
  {
    TrimInfix(s);
    TrimCutsWhitespace(s);
    TrimEnds(s);
    TrimEmpty(s);
    TrimEnd(TrimStart(s))
  }

  /** What `trim()` keeps is the infix starting after the leading run. */
  lemma TrimInfix(s: string)
    ensures LeadingWs(s) + |TrimEnd(TrimStart(s))| <= |s|
    ensures TrimEnd(TrimStart(s)) == s[LeadingWs(s)..LeadingWs(s) + |TrimEnd(TrimStart(s))|]
  {
    var k := LeadingWs(s);
    var u := s[k..];
    assert TrimStart(s) == u;
    assert TrimEnd(u) == u[..|u| - TrailingWs(u)];
  }

  /** What `trim()` cuts off at either end is whitespace. */
  lemma TrimCutsWhitespace(s: string)
    ensures AllWhitespace(s[..LeadingWs(s)])
    ensures AllWhitespace(s[LeadingWs(s) + |TrimEnd(TrimStart(s))|..])
  {
    var k := LeadingWs(s);
    var u := s[k..];
    var m := TrailingWs(u);
    var r := u[..|u| - m];
    assert TrimStart(s) == u;
    assert TrimEnd(u) == r;
    assert s[k + |r|..] == u[|u| - m..];
  }

  /** A non-empty result of `trim()` starts and ends with a non-whitespace
      character. */
  lemma TrimEnds(s: string)
    ensures var r := TrimEnd(TrimStart(s));
      r == [] || (!IsWhitespace(r[0]) && !IsWhitespace(r[|r| - 1]))
  {
    var k := LeadingWs(s);
    var u := s[k..];
    var m := TrailingWs(u);
    var r := u[..|u| - m];
    assert TrimStart(s) == u;
    assert TrimEnd(u) == r;
    if u != [] {
      assert u[0] == s[k];
      assert m < |u|;
      assert r[0] == u[0];
      assert r[|r| - 1] == u[|u| - m - 1];
    }
  }

  /** `trim()` gives the empty string exactly for all-whitespace input. */
  lemma TrimEmpty(s: string)
    ensures TrimEnd(TrimStart(s)) == [] <==> AllWhitespace(s)
  {
    var k := LeadingWs(s);
    var u := s[k..];
    var m := TrailingWs(u);
    assert TrimStart(s) == u;
    assert TrimEnd(u) == u[..|u| - m];
    if u == [] {
      assert s[..k] == s;
    } else {
      assert u[0] == s[k];
      assert m < |u|;
    }
  }

  /** `s.split(/\s+/)`: the fields between maximal runs of whitespace. As in
      JavaScript, the empty string gives `[""]`, and a leading or trailing
      run gives an empty first or last field. */
  function SplitWs(s: string): (fields: seq<string>)
    ensures |fields| >= 1
    ensures forall i :: 0 <= i < |fields| ==> NoWhitespace(fields[i])
    ensures fields[0] == "" <==> s == [] || IsWhitespace(s[0])
    ensures forall i :: 0 < i < |fields| - 1 ==> fields[i] != ""
    decreases |s|
  {
    if s == [] then [""]
    else if IsWhitespace(s[0]) then [""] + SplitWs(TrimStart(s[1..]))
    else
      var rest := SplitWs(s[1..]);
      [[s[0]] + rest[0]] + rest[1..]
  }

  /** The fields that are not empty, in order. */
  function NonEmpty(fields: seq<string>): (r: seq<string>)
    ensures |r| <= |fields|
    ensures forall i :: 0 <= i < |r| ==> r[i] != ""
    ensures forall t :: t != "" ==> (t in r <==> t in fields)
  {
    if fields == [] then []
    else (if fields[0] == "" then [] else [fields[0]]) + NonEmpty(fields[1..])
  }

  /** The whitespace-separated words of `s`. */
  function Words(s: string): seq<string> {
    NonEmpty(SplitWs(s))
  }

  lemma {:induction false} NonEmptyAppend(a: seq<string>, b: seq<string>)
    ensures NonEmpty(a + b) == NonEmpty(a) + NonEmpty(b)
  {
    if a != [] {
      assert (a + b)[1..] == a[1..] + b;
      NonEmptyAppend(a[1..], b);
    } else {
      assert a + b == b;
    }
  }

  lemma {:induction false} NonEmptyKeeps(a: seq<string>)
    requires forall i :: 0 <= i < |a| ==> a[i] != ""
    ensures NonEmpty(a) == a
  {
    if a != [] {
      NonEmptyKeeps(a[1..]);
    }
  }

  /** Splitting a string that starts with a whitespace-free piece `x`. */
  lemma {:induction false} SplitWsPrefix(x: string, y: string)
    requires NoWhitespace(x)
    ensures SplitWs(x + y) == [x + SplitWs(y)[0]] + SplitWs(y)[1..]
  {
    if x != [] {
      assert (x + y)[0] == x[0];
      assert (x + y)[1..] == x[1..] + y;
      SplitWsPrefix(x[1..], y);
      assert [x[0]] + (x[1..] + SplitWs(y)[0]) == x + SplitWs(y)[0];
    } else {
      assert x + y == y;
      assert x + SplitWs(y)[0] == SplitWs(y)[0];
      assert SplitWs(y) == [SplitWs(y)[0]] + SplitWs(y)[1..];
    }
  }

  /** The edge cases of `split(/\s+/)`: the empty string is one empty
      field, and a leading or trailing whitespace run leaves an empty field
      at that end. */
  lemma SplitWsEdges(w: string)
    requires w != "" && NoWhitespace(w)
    ensures SplitWs("") == [""]
    ensures SplitWs(w) == [w]
    ensures SplitWs(" " + w) == ["", w]
    ensures SplitWs(w + " ") == [w, ""]
  {
    SplitWsOneWord(w);
    SplitWsLeadingSpace(w);
    SplitWsTrailingSpace(w);
  }

  /** A string without whitespace is its own single field. */
  lemma SplitWsOneWord(w: string)
    requires NoWhitespace(w)
    ensures SplitWs(w) == [w]
  {
    SplitWsPrefix(w, "");
    assert w + "" == w;
  }

  /** One space before a non-empty word gives an empty first field. */
  lemma SplitWsLeadingSpace(w: string)
    requires w != "" && NoWhitespace(w)
    ensures SplitWs(" " + w) == ["", w]
  {
    assert (" " + w)[1..] == w;
    assert LeadingWs(w) == 0;
    assert TrimStart(w) == w;
    SplitWsOneWord(w);
  }

  /** One space after a word gives an empty last field. */
  lemma SplitWsTrailingSpace(w: string)
    requires NoWhitespace(w)
    ensures SplitWs(w + " ") == [w, ""]
  {
    assert " "[1..] == "";
    assert TrimStart("") == "";
    assert SplitWs(" ") == ["", ""];
    SplitWsPrefix(w, " ");
    assert w + "" == w;
  }

  /** The last field is empty exactly when the string is empty or ends in
      whitespace. */
  lemma {:induction false} SplitWsLast(s: string)
    ensures Last(SplitWs(s)) == "" <==> s == [] || IsWhitespace(Last(s))
    decreases |s|
  {
    if s != [] {
      if IsWhitespace(s[0]) {
        var t := TrimStart(s[1..]);
        SplitWsLast(t);
        assert Last(SplitWs(s)) == Last(SplitWs(t));
        if t == [] {
          if |s| > 1 {
            assert LeadingWs(s[1..]) == |s| - 1;
            assert s[1..][|s| - 2] == Last(s);
          }
        } else {
          assert Last(t) == Last(s);
        }
      } else {
        var rest := SplitWs(s[1..]);
        SplitWsLast(s[1..]);
        if s[1..] == [] {
          assert rest == [""];
          assert |SplitWs(s)| == 1 && SplitWs(s)[0] != "";
        } else if |rest| == 1 {
          assert !IsWhitespace(s[1..][0]);
          assert Last(s[1..]) == Last(s);
        } else {
          assert Last(SplitWs(s)) == Last(rest);
          assert Last(s[1..]) == Last(s);
        }
      }
    }
  }

  /** Splitting a space join gives back the fields when they hold no
      whitespace and only the first and the last may be empty. */
  lemma {:induction false} SplitWsJoin(fields: seq<string>)
    requires |fields| >= 1
    requires forall i :: 0 <= i < |fields| ==> NoWhitespace(fields[i])
    requires forall i :: 0 < i < |fields| - 1 ==> fields[i] != ""
    ensures SplitWs(Join(fields, " ")) == fields
  {
    var f := fields[0];
    if |fields| == 1 {
      SplitWsPrefix(f, "");
      assert f + "" == f;
    } else {
      var rest := fields[1..];
      var j := Join(rest, " ");
      SplitWsJoin(rest);
      TrimStartOfJoin(rest);
      SplitWsCons(f, j, rest);
      assert Join(fields, " ") == f + " " + j;
      assert fields == [f] + rest;
    }
  }

  /** Putting a whitespace-free field and one space before a string that
      does not start with whitespace adds that field in front of its
      split. */
  lemma SplitWsCons(f: string, j: string, rest: seq<string>)
    requires NoWhitespace(f)
    requires TrimStart(j) == j
    requires SplitWs(j) == rest
    ensures SplitWs(f + " " + j) == [f] + rest
  {
    assert (" " + j)[1..] == j;
    assert SplitWs(" " + j) == [""] + rest;
    SplitWsPrefix(f, " " + j);
    assert f + " " + j == f + (" " + j);
    assert f + "" == f;
  }

  /** A space join whose first field is not empty, or is the only field,
      does not start with whitespace. */
  lemma TrimStartOfJoin(fields: seq<string>)
    requires |fields| >= 1
    requires forall i :: 0 <= i < |fields| ==> NoWhitespace(fields[i])
    requires fields[0] != "" || |fields| == 1
    ensures TrimStart(Join(fields, " ")) == Join(fields, " ")
  {
    var j := Join(fields, " ");
    if j != [] {
      assert fields[0] != "";
      assert j[0] == fields[0][0];
      assert LeadingWs(j) == 0;
    }
  }

  /** `s` with every maximal whitespace run replaced by one space: an
      independent description of what `split(/\s+/)` keeps. */
  function Collapse(s: string): (r: string)
    ensures |r| <= |s|
    ensures r == [] <==> s == []
    ensures r != [] ==> (IsWhitespace(r[0]) <==> IsWhitespace(s[0]))
    ensures forall i :: 0 <= i < |r| && IsWhitespace(r[i]) ==> r[i] == ' '
    ensures forall i :: 0 <= i < |r| - 1 ==> !(IsWhitespace(r[i]) && IsWhitespace(r[i + 1]))
    decreases |s|
  {
    if s == [] then []
    else if IsWhitespace(s[0]) then " " + Collapse(TrimStart(s[1..]))
    else [s[0]] + Collapse(s[1..])
  }

  /** Joining the fields of `split(/\s+/)` with single spaces gives the
      collapsed string: with `SplitWsJoin` this fixes the fields of every
      string. */
  lemma {:induction false} JoinSplitWs(s: string)
    ensures Join(SplitWs(s), " ") == Collapse(s)
    decreases |s|
  {
    if s != [] {
      if IsWhitespace(s[0]) {
        var t := TrimStart(s[1..]);
        JoinSplitWs(t);
        assert SplitWs(s) == [""] + SplitWs(t);
        assert ([""] + SplitWs(t))[1..] == SplitWs(t);
      } else {
        var rest := SplitWs(s[1..]);
        JoinSplitWs(s[1..]);
        JoinConsFirst(s[0], rest, " ");
      }
    }
  }

  /** The fields of `split(/\s+/)` are determined: any whitespace-free
      fields, empty only at the ends, whose space join is the collapsed
      string are exactly the split. */
  lemma SplitWsCharacterised(s: string, fields: seq<string>)
    requires |fields| >= 1
    requires forall i :: 0 <= i < |fields| ==> NoWhitespace(fields[i])
    requires forall i :: 0 < i < |fields| - 1 ==> fields[i] != ""
    requires Join(fields, " ") == Collapse(s)
    ensures SplitWs(s) == fields
  {
    JoinSplitWs(s);
    SplitWsJoin(SplitWs(s));
    SplitWsJoin(fields);
  }

  /** Putting a character in front of the first field puts it in front of
      the join. */
  lemma JoinConsFirst(c: char, fields: seq<string>, sep: string)
    requires |fields| >= 1
    ensures Join([[c] + fields[0]] + fields[1..], sep) == [c] + Join(fields, sep)
  {
    var g := [[c] + fields[0]] + fields[1..];
    if |fields| > 1 {
      assert g[1..] == fields[1..];
      assert [c] + fields[0] + sep + Join(fields[1..], sep) == [c] + (fields[0] + sep + Join(fields[1..], sep));
    }
  }

  /** Leading whitespace does not change the words. */
  lemma WordsTrimStart(s: string)
    ensures Words(TrimStart(s)) == Words(s)
  {
    if |s| > 0 && IsWhitespace(s[0]) {
      var rest := SplitWs(TrimStart(s[1..]));
      assert SplitWs(s) == [""] + rest;
      assert ([""] + rest)[1..] == rest;
    }
  }

  lemma {:induction false} TrimStartAppend(u: string, v: string)
    ensures TrimStart(u + v) == if TrimStart(u) == [] then TrimStart(v) else TrimStart(u) + v
  {
    if u == [] {
      assert u + v == v;
    } else {
      assert (u + v)[0] == u[0];
      assert (u + v)[1..] == u[1..] + v;
      if IsWhitespace(u[0]) {
        TrimStartAppend(u[1..], v);
      }
    }
  }

  /** One trailing whitespace character changes neither the words nor the
      first field. */
  lemma {:induction false} WordsAppendWhitespace(s: string, c: char)
    requires IsWhitespace(c)
    ensures Words(s + [c]) == Words(s)
    ensures SplitWs(s + [c])[0] == SplitWs(s)[0]
    decreases |s|
  {
    if s == [] {
      assert SplitWs([c]) == [""] + SplitWs(TrimStart([]));
    } else {
      assert (s + [c])[0] == s[0];
      assert (s + [c])[1..] == s[1..] + [c];
      if IsWhitespace(s[0]) {
        var u := s[1..];
        TrimStartAppend(u, [c]);
        var rest := SplitWs(TrimStart(u));
        var rest' := SplitWs(TrimStart(u + [c]));
        assert SplitWs(s) == [""] + rest;
        assert SplitWs(s + [c]) == [""] + rest';
        assert ([""] + rest)[1..] == rest;
        assert ([""] + rest')[1..] == rest';
        if TrimStart(u) == [] {
          assert TrimStart(u + [c]) == [];
        } else {
          WordsAppendWhitespace(TrimStart(u), c);
        }
      } else {
        var rest := SplitWs(s[1..]);
        var rest' := SplitWs(s[1..] + [c]);
        WordsAppendWhitespace(s[1..], c);
        assert rest == [rest[0]] + rest[1..];
        assert rest' == [rest'[0]] + rest'[1..];
        assert SplitWs(s) == [[s[0]] + rest[0]] + rest[1..];
        assert SplitWs(s + [c]) == [[s[0]] + rest[0]] + rest'[1..];
        NonEmptyAppend([rest[0]], rest[1..]);
        NonEmptyAppend([rest[0]], rest'[1..]);
        assert NonEmpty(rest[1..]) == NonEmpty(rest'[1..]) by {
          var a := NonEmpty([rest[0]]);
          assert a + NonEmpty(rest[1..]) == a + NonEmpty(rest'[1..]);
          assert NonEmpty(rest[1..]) == (a + NonEmpty(rest[1..]))[|a|..];
          assert NonEmpty(rest'[1..]) == (a + NonEmpty(rest'[1..]))[|a|..];
        }
        NonEmptyAppend([[s[0]] + rest[0]], rest[1..]);
        NonEmptyAppend([[s[0]] + rest[0]], rest'[1..]);
      }
    }
  }

  /** Trailing whitespace does not change the words. */
  lemma {:induction false} WordsTrimEnd(s: string)
    ensures Words(TrimEnd(s)) == Words(s)
  {
    if |s| > 0 && IsWhitespace(s[|s| - 1]) {
      var p := s[..|s| - 1];
      assert s == p + [s[|s| - 1]];
      WordsAppendWhitespace(p, s[|s| - 1]);
      WordsTrimEnd(p);
      assert TrailingWs(s) == 1 + TrailingWs(p);
      assert TrimEnd(s) == TrimEnd(p);
    } else {
      assert TrimEnd(s) == s;
    }
  }

  /** Trimming does not change the words. */
  lemma WordsTrim(s: string)
    ensures Words(Trim(s)) == Words(s)
  {
    WordsTrimStart(s);
    WordsTrimEnd(TrimStart(s));
  }

  /** When `s` does not end in whitespace, only its first field can be empty. */
  lemma {:induction false} SplitWsTailNonEmpty(s: string)
    requires s != [] && !IsWhitespace(s[|s| - 1])
    ensures forall i :: 1 <= i < |SplitWs(s)| ==> SplitWs(s)[i] != ""
    decreases |s|
  {
    if IsWhitespace(s[0]) {
      var d := TrimStart(s[1..]);
      assert d != [];
      assert Last(d) == Last(s);
      SplitWsTailNonEmpty(d);
      assert SplitWs(s) == [""] + SplitWs(d);
    } else if |s| > 1 {
      SplitWsTailNonEmpty(s[1..]);
    }
  }

  /** A string with no whitespace at either end splits into its words. */
  lemma SplitWsOfTrimmed(s: string)
    requires s != [] && !IsWhitespace(s[0]) && !IsWhitespace(s[|s| - 1])
    ensures SplitWs(s) == Words(s)
  {
    SplitWsTailNonEmpty(s);
    NonEmptyKeeps(SplitWs(s));
  }

  /** A whitespace-free piece, one space, then more text. */
  lemma WordsPieceSpace(f: string, tail: string)
    requires NoWhitespace(f)
    ensures Words(f + " " + tail) == NonEmpty([f]) + Words(tail)
  {
    assert f + " " + tail == f + (" " + tail);
    SplitWsPrefix(f, " " + tail);
    assert (" " + tail)[1..] == tail;
    var rest := SplitWs(TrimStart(tail));
    assert SplitWs(" " + tail) == [""] + rest;
    assert ([""] + rest)[1..] == rest;
    assert f + "" == f;
    assert SplitWs(f + " " + tail) == [f] + rest;
    NonEmptyAppend([f], rest);
    WordsTrimStart(tail);
  }

  /** The words of a space-joined list of whitespace-free fields are its
      non-empty fields. */
  lemma {:induction false} WordsJoin(fields: seq<string>)
    requires forall i :: 0 <= i < |fields| ==> NoWhitespace(fields[i])
    ensures Words(Join(fields, " ")) == NonEmpty(fields)
  {
    if |fields| == 1 {
      SplitWsPrefix(fields[0], "");
      assert fields[0] + "" == fields[0];
    } else if |fields| > 1 {
      WordsJoin(fields[1..]);
      WordsPieceSpace(fields[0], Join(fields[1..], " "));
      assert fields == [fields[0]] + fields[1..];
      NonEmptyAppend([fields[0]], fields[1..]);
    }
  }

  /* ---------------- case ---------------- */

  /** `toLowerCase` on one character, restricted to the ASCII letters. */
  function LowerChar(c: char): (r: char)
    ensures 'A' <= c <= 'Z' ==> 'a' <= r <= 'z' && r as int - 'a' as int == c as int - 'A' as int
    ensures !('A' <= c <= 'Z') ==> r == c
  {
    if 'A' <= c <= 'Z' then (c as int + 32) as char else c
  }

  /** `s.toLowerCase()` on ASCII: each capital becomes its small letter,
      every other character stays, and no capital is left. */
  function ToLower(s: string): (r: string)
    ensures |r| == |s|
    ensures forall i :: 0 <= i < |s| && 'A' <= s[i] <= 'Z' ==> r[i] as int == s[i] as int + 32
    ensures forall i :: 0 <= i < |s| && !('A' <= s[i] <= 'Z') ==> r[i] == s[i]
    ensures forall i :: 0 <= i < |r| ==> !('A' <= r[i] <= 'Z')
  {
    seq(|s|, i requires 0 <= i < |s| => LowerChar(s[i]))
  }
}
