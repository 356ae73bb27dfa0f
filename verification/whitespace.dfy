/** Whitespace normalisation of extracted page text:
    `text.replace(/\s+/g, ' ').trim()`. */
module Whitespace {
  import opened JsString

  /** Every whitespace character is a plain space and no two whitespace
      characters are adjacent. */
  predicate SingleSpaced(s: string) {
    && (forall i :: 0 <= i < |s| && IsWs(s[i]) ==> s[i] == ' ')
    && (forall i :: 0 <= i < |s| - 1 && IsWs(s[i]) ==> !IsWs(s[i + 1]))
  }

  /** Neither the first nor the last character is whitespace. */
  predicate Trimmed(s: string) {
    s == [] || (!IsWs(s[0]) && !IsWs(s[|s| - 1]))
  }

  /** The shape of cleaned text. */
  predicate Cleaned(s: string) {
    SingleSpaced(s) && Trimmed(s)
  }

  /** The non-whitespace characters of `s`, in order. */
  function NonWs(s: string): string {
    if s == [] then [] else (if IsWs(s[0]) then [] else [s[0]]) + NonWs(s[1..])
  }

  /** `s` without its longest whitespace prefix. */
  function TrimStart(s: string): (r: string)
    ensures |r| <= |s|
    ensures r == [] || !IsWs(r[0])
  {
    if s != [] && IsWs(s[0]) then TrimStart(s[1..]) else s
  }

  /** What `TrimStart` drops is a whitespace prefix. */
  lemma {:induction false} TrimStartDrops(s: string)
    ensures var r := TrimStart(s);
      && r == s[|s| - |r|..]
      && forall i :: 0 <= i < |s| - |r| ==> IsWs(s[i])
  {
    if s != [] && IsWs(s[0]) {
      TrimStartDrops(s[1..]);
    }
  }

  /** `s` without its longest whitespace suffix. */
  function TrimEnd(s: string): (r: string)
    ensures |r| <= |s|
    ensures r == [] || !IsWs(r[|r| - 1])
  {
    if s != [] && IsWs(s[|s| - 1]) then TrimEnd(s[..|s| - 1]) else s
  }

  /** What `TrimEnd` drops is a whitespace suffix. */
  lemma {:induction false} TrimEndDrops(s: string)
    ensures var r := TrimEnd(s);
      && r == s[..|r|]
      && forall i :: |r| <= i < |s| ==> IsWs(s[i])
  {
    if s != [] && IsWs(s[|s| - 1]) {
      TrimEndDrops(s[..|s| - 1]);
    }
  }

  /** `String.prototype.trim`: a slice of `s` that drops exactly the leading and
      trailing whitespace. */
  function Trim(s: string): (r: string)
    ensures Trimmed(r)
    ensures exists a, b :: WsFramed(s, r, a, b)
  {
    var t := TrimStart(s);
    var r := TrimEnd(t);
    TrimStartDrops(s);
    TrimEndDrops(t);
    TrimsFrame(s, t, r);
    r
  }

  /** Dropping a whitespace prefix and then a whitespace suffix keeps the slice between
      the two runs, and leaves no whitespace at either end. */
  lemma TrimsFrame(s: string, t: string, r: string)
    requires |t| <= |s| && t == s[|s| - |t|..]
    requires forall i :: 0 <= i < |s| - |t| ==> IsWs(s[i])
    requires t == [] || !IsWs(t[0])
    requires |r| <= |t| && r == t[..|r|]
    requires forall i :: |r| <= i < |t| ==> IsWs(t[i])
    requires r == [] || !IsWs(r[|r| - 1])
    ensures Trimmed(r)
    ensures WsFramed(s, r, |s| - |t|, |s| - |t| + |r|)
  {
    var a := |s| - |t|;
    DropFramed(s, t, a);
    TakeFramed(t, r);
    FramedCompose(s, t, r, a, |s|, 0, |r|, a, a + |r|);
    if r != [] {
      assert r[0] == t[0];
    }
  }

  /** A suffix after a run of whitespace is framed by it. */
  lemma DropFramed(s: string, t: string, a: int)
    requires 0 <= a <= |s| && t == s[a..]
    requires forall i :: 0 <= i < a ==> IsWs(s[i])
    ensures WsFramed(s, t, a, |s|)
  {
    assert s[a..|s|] == s[a..];
  }

  /** A prefix before a run of whitespace is framed by it. */
  lemma TakeFramed(t: string, r: string)
    requires |r| <= |t| && r == t[..|r|]
    requires forall i :: |r| <= i < |t| ==> IsWs(t[i])
    ensures WsFramed(t, r, 0, |r|)
  {
    assert t[0..|r|] == t[..|r|];
  }

  /** A frame inside a frame is a frame. */
  lemma FramedCompose(s: string, t: string, r: string, a: int, b: int, c: int, d: int, lo: int, hi: int)
    requires WsFramed(s, t, a, b) && WsFramed(t, r, c, d)
    requires lo == a + c && hi == a + d
    ensures WsFramed(s, r, lo, hi)
  {
    assert r == s[lo..hi] by {
      forall i | 0 <= i < |r| ensures r[i] == s[lo + i] {
        assert r[i] == t[c + i];
      }
    }
    forall i | 0 <= i < a + c ensures IsWs(s[i]) {
      if i >= a {
        assert s[i] == t[i - a];
      }
    }
    forall i | a + d <= i < |s| ensures IsWs(s[i]) {
      if i < b {
        assert s[i] == t[i - a];
      }
    }
  }

  /** `r` is `s[a..b]` and everything of `s` outside that slice is whitespace. */
  predicate WsFramed(s: string, r: string, a: int, b: int) {
    && 0 <= a <= b <= |s| && r == s[a..b]
    && (forall i :: 0 <= i < a ==> IsWs(s[i]))
    && (forall i :: b <= i < |s| ==> IsWs(s[i]))
  }

  /** `s.replace(/\s+/g, ' ')`: every maximal run of whitespace becomes one space. */
  function Collapse(s: string): (r: string)
    ensures |r| <= |s|
    ensures r == [] <==> s == []
    ensures s != [] ==> (IsWs(r[0]) <==> IsWs(s[0]))
    ensures s != [] && !IsWs(s[0]) ==> r[0] == s[0]
    ensures SingleSpaced(r)
    decreases |s|
  {
    if s == [] then []
    else if IsWs(s[0]) then
      var rest := Collapse(TrimStart(s[1..]));
      SingleSpacedCons(' ', rest);
      [' '] + rest
    else
      var rest := Collapse(s[1..]);
      SingleSpacedCons(s[0], rest);
      [s[0]] + rest
  }

  /** Prepending a character keeps a string single-spaced when the character is not
      whitespace, or is a space not followed by whitespace. */
  lemma SingleSpacedCons(c: char, t: string)
    requires SingleSpaced(t)
    requires IsWs(c) ==> c == ' ' && (t == [] || !IsWs(t[0]))
    ensures SingleSpaced([c] + t)
  {
    var r := [c] + t;
    forall i | 0 <= i < |r| && IsWs(r[i]) ensures r[i] == ' ' {
      if i > 0 { assert r[i] == t[i - 1]; }
    }
    forall i | 0 <= i < |r| - 1 && IsWs(r[i]) ensures !IsWs(r[i + 1]) {
      if i > 0 { assert r[i] == t[i - 1] && r[i + 1] == t[i]; }
    }
  }

  /** The cleaning step applied to a page's body text; text already in that shape is
      left as it is. */
  function Clean(s: string): (r: string)
    ensures Cleaned(r)
    ensures |r| <= |s|
    ensures Cleaned(s) ==> r == s
  {
    var c := Collapse(s);
    var r := Trim(c);
    SliceSingleSpaced(c, r);
    assert Cleaned(s) ==> r == s by {
      if Cleaned(s) {
        CollapseFixesSingleSpaced(s);
        assert TrimStart(s) == s;
        assert TrimEnd(s) == s;
      }
    }
    r
  }

  /** A contiguous slice of a single-spaced string is single-spaced. */
  lemma SliceSingleSpaced(s: string, r: string)
    requires SingleSpaced(s)
    requires exists a, b :: 0 <= a <= b <= |s| && r == s[a..b]
    ensures SingleSpaced(r)
  {
    var a, b :| 0 <= a <= b <= |s| && r == s[a..b];
    forall i | 0 <= i < |r| - 1 && IsWs(r[i])
      ensures !IsWs(r[i + 1])
    {
      assert r[i] == s[a + i] && r[i + 1] == s[a + i + 1];
    }
  }

  lemma {:induction false} NonWsAppend(a: string, b: string)
    ensures NonWs(a + b) == NonWs(a) + NonWs(b)
  {
    if a == [] {
      assert a + b == b;
    } else {
      var h := if IsWs(a[0]) then [] else [a[0]];
      calc {
        NonWs(a + b);
        { assert (a + b)[0] == a[0] && (a + b)[1..] == a[1..] + b; }
        h + NonWs(a[1..] + b);
        { NonWsAppend(a[1..], b); }
        h + (NonWs(a[1..]) + NonWs(b));
        (h + NonWs(a[1..])) + NonWs(b);
      }
    }
  }

  lemma {:induction false} NonWsOfWs(s: string)
    requires forall i :: 0 <= i < |s| ==> IsWs(s[i])
    ensures NonWs(s) == []
  {
    if s != [] {
      NonWsOfWs(s[1..]);
    }
  }

  /** Collapsing removes whitespace only: every other character survives, in order. */
  lemma {:induction false} CollapseKeepsNonWs(s: string)
    ensures NonWs(Collapse(s)) == NonWs(s)
    decreases |s|
  {
    if s != [] {
      if IsWs(s[0]) {
        var t := TrimStart(s[1..]);
        TrimStartDrops(s[1..]);
        CollapseKeepsNonWs(t);
        NonWsAppend([' '], Collapse(t));
        var k := |s[1..]| - |t|;
        assert s[1..] == s[1..][..k] + t;
        NonWsAppend(s[1..][..k], t);
        NonWsOfWs(s[1..][..k]);
      } else {
        CollapseKeepsNonWs(s[1..]);
        NonWsAppend([s[0]], Collapse(s[1..]));
      }
    }
  }

  /** Trimming removes whitespace only. */
  lemma TrimKeepsNonWs(s: string)
    ensures NonWs(Trim(s)) == NonWs(s)
  {
    var a, b :| WsFramed(s, Trim(s), a, b);
    FramedKeepsNonWs(s, Trim(s), a, b);
  }

  lemma FramedKeepsNonWs(s: string, r: string, a: int, b: int)
    requires WsFramed(s, r, a, b)
    ensures NonWs(r) == NonWs(s)
  {
    var pre, post := s[..a], s[b..];
    assert s == (pre + r) + post;
    forall i | 0 <= i < |post| ensures IsWs(post[i]) {
      assert post[i] == s[b + i];
    }
    NonWsAppend(pre + r, post);
    NonWsAppend(pre, r);
    NonWsOfWs(pre);
    NonWsOfWs(post);
  }

  /** Cleaning removes whitespace only: the non-whitespace characters of the
      cleaned text are exactly those of the input, in order. */
  lemma CleanKeepsNonWs(s: string)
    ensures NonWs(Clean(s)) == NonWs(s)
  {
    CollapseKeepsNonWs(s);
    TrimKeepsNonWs(Collapse(s));
  }

  /** Collapsing leaves single-spaced text as it is. */
  lemma {:induction false} CollapseFixesSingleSpaced(s: string)
    requires SingleSpaced(s)
    ensures Collapse(s) == s
    decreases |s|
  {
    if s != [] {
      assert s[1..] == s[1..|s|];
      SliceSingleSpaced(s, s[1..]);
      CollapseFixesSingleSpaced(s[1..]);
      if IsWs(s[0]) {
        assert TrimStart(s[1..]) == s[1..];
        assert [s[0]] + s[1..] == s;
      } else {
        assert [s[0]] + s[1..] == s;
      }
    }
  }

  /** Cleaning is idempotent: already-cleaned text is a fixed point, so cleaning
      twice is cleaning once. */
  lemma CleanIdempotent(s: string)
    ensures Cleaned(s) ==> Clean(s) == s
    ensures Clean(Clean(s)) == Clean(s)
  {
  }

  // ----- Reference description: the words of a text -----

  /** A word: a non-empty run of non-whitespace characters. */
  predicate IsWord(w: string) {
    w != [] && forall i :: 0 <= i < |w| ==> !IsWs(w[i])
  }

  /** Length of the longest non-whitespace prefix of `s`. */
  function WordEnd(s: string): (n: nat)
    ensures n <= |s|
    ensures forall i :: 0 <= i < n ==> !IsWs(s[i])
    ensures n < |s| ==> IsWs(s[n])
  {
    if s == [] || IsWs(s[0]) then 0 else 1 + WordEnd(s[1..])
  }

  /** The maximal runs of non-whitespace characters of `s`, in order. */
  function Words(s: string): (ws: seq<string>)
    ensures forall i :: 0 <= i < |ws| ==> IsWord(ws[i])
    ensures s != [] && !IsWs(s[0]) ==> ws != [] && ws[0] == s[..WordEnd(s)]
    decreases |s|
  {
    if s == [] then []
    else if IsWs(s[0]) then Words(s[1..])
    else
      var n := WordEnd(s);
      [s[..n]] + Words(s[n..])
  }

  /** The space that collapsing keeps for a whitespace run at the start or the end of `s`. */
  function EdgeSpace(s: string, atStart: bool): (r: string)
    requires s != []
    ensures r == "" || r == " "
  {
    if IsWs(s[if atStart then 0 else |s| - 1]) then " " else ""
  }

  /** Leading whitespace separates no words. */
  lemma {:induction false} WordsSkipWs(s: string)
    ensures Words(TrimStart(s)) == Words(s)
  {
    if s != [] && IsWs(s[0]) {
      WordsSkipWs(s[1..]);
    }
  }

  /** Collapsing copies a leading word and goes on after it. */
  lemma {:induction false} CollapseWord(s: string)
    ensures Collapse(s) == s[..WordEnd(s)] + Collapse(s[WordEnd(s)..])
  {
    if s == [] || IsWs(s[0]) {
      assert s[..0] == [] && s[0..] == s;
    } else {
      CollapseWord(s[1..]);
      CollapseWordStep(s);
    }
  }

  /** The inductive step of `CollapseWord`: one more character of the word. */
  lemma CollapseWordStep(s: string)
    requires s != [] && !IsWs(s[0])
    requires var r := s[1..]; Collapse(r) == r[..WordEnd(r)] + Collapse(r[WordEnd(r)..])
    ensures Collapse(s) == s[..WordEnd(s)] + Collapse(s[WordEnd(s)..])
  {
    var r := s[1..];
    var m := WordEnd(r);
    assert WordEnd(s) == 1 + m;
    assert Collapse(s) == [s[0]] + Collapse(r);
    SliceCons(s, m);
    Regroup([s[0]], r[..m], Collapse(r[m..]));
  }

  /** Slicing after the first character, in terms of the tail; the index step of
      `CollapseWordStep`. */
  lemma SliceCons(s: string, m: nat)
    requires s != [] && m < |s|
    ensures s[..1 + m] == [s[0]] + s[1..][..m]
    ensures s[1..][m..] == s[1 + m..]
  {
  }

  /** Associativity of concatenation, stated once so that the proofs of
      `CollapseWordStep`, `WordRunMore` and `CollapseRunThenWord` do not have to
      rediscover it among their other facts. */
  lemma Regroup(a: string, b: string, c: string)
    ensures a + (b + c) == (a + b) + c
  {
  }

  /** Dropping a proper prefix keeps the last character; in `WordRunEdge` it carries
      the trailing-space decision from the text to the part after its first word. */
  lemma LastOfDrop(t: string, k: nat)
    requires k < |t|
    ensures t[k..] != [] && t[k..][|t[k..]| - 1] == t[|t| - 1]
  {
  }

  /** One step of both descriptions over a leading word. */
  lemma WordStep(t: string)
    requires t != [] && !IsWs(t[0])
    ensures Collapse(t) == t[..WordEnd(t)] + Collapse(t[WordEnd(t)..])
    ensures Words(t) == [t[..WordEnd(t)]] + Words(t[WordEnd(t)..])
  {
    CollapseWord(t);
  }

  /** One step of both descriptions over a leading whitespace run. */
  lemma RunStep(u: string)
    requires u != [] && IsWs(u[0])
    ensures Collapse(u) == " " + Collapse(TrimStart(u))
    ensures Words(u) == Words(TrimStart(u))
    ensures TrimStart(u) != [] ==> TrimStart(u)[|TrimStart(u)| - 1] == u[|u| - 1]
    ensures TrimStart(u) == [] ==> IsWs(u[|u| - 1])
  {
    assert TrimStart(u) == TrimStart(u[1..]);
    WordsSkipWs(u);
    TrimStartDrops(u);
    RunLast(u, TrimStart(u));
  }

  /** After a whitespace prefix is dropped, the last character is the original one,
      or the whole string was whitespace. */
  lemma RunLast(u: string, v: string)
    requires u != [] && |v| <= |u| && v == u[|u| - |v|..]
    requires forall i :: 0 <= i < |u| - |v| ==> IsWs(u[i])
    ensures v != [] ==> v[|v| - 1] == u[|u| - 1]
    ensures v == [] ==> IsWs(u[|u| - 1])
  {
  }

  /** Words joined by single spaces neither start nor end with whitespace. */
  lemma {:induction false} JoinWordsEnds(ws: seq<string>)
    requires ws != [] && forall i :: 0 <= i < |ws| ==> IsWord(ws[i])
    ensures var j := Join(ws, " "); j != [] && !IsWs(j[0]) && !IsWs(j[|j| - 1])
  {
    if |ws| > 1 {
      JoinWordsEnds(ws[1..]);
      var j := Join(ws, " ");
      assert j == ws[0] + (" " + Join(ws[1..], " "));
      assert j[0] == ws[0][0];
    }
  }

  /** Collapsing text that starts with a word: the words joined by single spaces,
      then one space if the text ends in whitespace. */
  lemma {:induction false} CollapseFromWord(t: string)
    requires t != [] && !IsWs(t[0])
    ensures Collapse(t) == Join(Words(t), " ") + EdgeSpace(t, false)
    decreases |t|
  {
    var u := t[WordEnd(t)..];
    if u == [] {
      CollapseOneWord(t);
    } else if TrimStart(u) == [] {
      CollapseWordThenRun(t);
    } else {
      CollapseFromWord(TrimStart(u));
      CollapseWordRunMore(t);
    }
  }

  /** Text that is a single word collapses to itself. */
  lemma CollapseOneWord(t: string)
    requires t != [] && !IsWs(t[0]) && t[WordEnd(t)..] == []
    ensures Collapse(t) == Join(Words(t), " ") + EdgeSpace(t, false)
  {
    var w := t[..WordEnd(t)];
    WordStep(t);
    assert EdgeSpace(t, false) == "" by {
      assert WordEnd(t) == |t|;
    }
    OneWord(Collapse(t), w, t[WordEnd(t)..], Words(t), EdgeSpace(t, false));
  }

  /** The final step of `CollapseOneWord`, over the values it has computed: a word with
      nothing after it is its own collapse and its only word. */
  lemma OneWord(ct: string, w: string, u: string, wt: seq<string>, e: string)
    requires u == [] && e == "" && ct == w + Collapse(u) && wt == [w] + Words(u)
    ensures ct == Join(wt, " ") + e
  {
    assert wt == [w];
  }

  /** A word followed by whitespace only collapses to the word and one space. */
  lemma CollapseWordThenRun(t: string)
    requires t != [] && !IsWs(t[0])
    requires var u := t[WordEnd(t)..]; u != [] && TrimStart(u) == []
    ensures Collapse(t) == Join(Words(t), " ") + EdgeSpace(t, false)
  {
    var w, u := t[..WordEnd(t)], t[WordEnd(t)..];
    WordStep(t);
    LastOfDrop(t, WordEnd(t));
    RunStep(u);
    WordThenSpace(Collapse(t), w, Collapse(u), TrimStart(u), Words(t), Words(u));
    assert EdgeSpace(t, false) == " ";
  }

  /** The final step of `CollapseWordThenRun`, over the values it has computed: a word
      followed by a run that collapses to one space, and no further words. */
  lemma WordThenSpace(ct: string, w: string, cu: string, v: string, wt: seq<string>, wu: seq<string>)
    requires v == [] && ct == w + cu && cu == " " + Collapse(v) && wt == [w] + wu && wu == Words(v)
    ensures ct == Join(wt, " ") + " "
  {
    assert wt == [w];
    assert cu == " ";
  }

  /** A word, a whitespace run and more text collapse to the word, one space and the
      collapsed rest. */
  lemma CollapseWordRunMore(t: string)
    requires t != [] && !IsWs(t[0])
    requires var u := t[WordEnd(t)..]; u != [] && TrimStart(u) != []
    requires var v := TrimStart(t[WordEnd(t)..]);
      Collapse(v) == Join(Words(v), " ") + EdgeSpace(v, false)
    ensures Collapse(t) == Join(Words(t), " ") + EdgeSpace(t, false)
  {
    var w, v := t[..WordEnd(t)], TrimStart(t[WordEnd(t)..]);
    WordRunFacts(t);
    WordRunMore(Collapse(t), w, Collapse(v), Join(Words(v), " "), EdgeSpace(v, false),
                Words(t), Words(v));
  }

  /** Both descriptions over a word followed by a whitespace run and more text. */
  lemma WordRunFacts(t: string)
    requires t != [] && !IsWs(t[0])
    requires var u := t[WordEnd(t)..]; u != [] && TrimStart(u) != []
    ensures var w, v := t[..WordEnd(t)], TrimStart(t[WordEnd(t)..]);
      && Collapse(t) == w + (" " + Collapse(v))
      && Words(t) == [w] + Words(v)
      && Words(v) != []
      && EdgeSpace(t, false) == EdgeSpace(v, false)
  {
    var u := t[WordEnd(t)..];
    WordStep(t);
    RunStep(u);
    WordRunEdge(t);
  }

  /** The text after a word and a whitespace run ends where the whole text ends. */
  lemma WordRunEdge(t: string)
    requires t != [] && !IsWs(t[0])
    requires var u := t[WordEnd(t)..]; u != [] && TrimStart(u) != []
    ensures var v := TrimStart(t[WordEnd(t)..]); EdgeSpace(t, false) == EdgeSpace(v, false)
  {
    var u := t[WordEnd(t)..];
    LastOfDrop(t, WordEnd(t));
    RunStep(u);
  }

  /** The final step of `CollapseWordRunMore`, over the values it has computed: the
      word, one space and the collapsed rest are the joined words plus the rest's
      trailing space. */
  lemma WordRunMore(ct: string, w: string, cv: string, jv: string, e: string,
                    wt: seq<string>, wv: seq<string>)
    requires ct == w + (" " + cv) && cv == jv + e
    requires wt == [w] + wv && wv != [] && jv == Join(wv, " ")
    ensures ct == Join(wt, " ") + e
  {
    JoinCons(w, wv);
    Regroup(w, " ", jv);
    Regroup(w + " ", jv, e);
  }

  /** Joining a word in front of a non-empty list puts one space after it. */
  lemma JoinCons(w: string, ws: seq<string>)
    requires ws != []
    ensures Join([w] + ws, " ") == w + " " + Join(ws, " ")
  {
    assert ([w] + ws)[1..] == ws;
  }

  /** `replace(/\s+/g, ' ')` against the words of the text: the words joined by single
      spaces, with one space for a whitespace run at either end; text of whitespace
      only becomes one space. */
  lemma CollapseJoinsWords(s: string)
    ensures Words(s) == [] ==> Collapse(s) == (if s == [] then "" else " ")
    ensures Words(s) != [] ==>
              Collapse(s) == EdgeSpace(s, true) + Join(Words(s), " ") + EdgeSpace(s, false)
  {
    if s != [] {
      if IsWs(s[0]) {
        var t := TrimStart(s);
        if t != [] {
          CollapseFromWord(t);
        }
        CollapseFromRun(s);
      } else {
        CollapseFromWord(s);
        assert EdgeSpace(s, true) == "";
        assert "" + Join(Words(s), " ") == Join(Words(s), " ");
      }
    }
  }

  /** Collapsing text that starts with whitespace, given the collapse of the text after
      that run. */
  lemma CollapseFromRun(s: string)
    requires s != [] && IsWs(s[0])
    requires var t := TrimStart(s);
      t != [] ==> Collapse(t) == Join(Words(t), " ") + EdgeSpace(t, false)
    ensures Words(s) == [] ==> Collapse(s) == " "
    ensures Words(s) != [] ==>
              Collapse(s) == EdgeSpace(s, true) + Join(Words(s), " ") + EdgeSpace(s, false)
  {
    if TrimStart(s) == [] {
      CollapseBlank(s);
    } else {
      CollapseRunThenWord(s);
    }
  }

  /** Text of whitespace only has no words and collapses to one space. */
  lemma CollapseBlank(s: string)
    requires s != [] && IsWs(s[0]) && TrimStart(s) == []
    ensures Words(s) == [] && Collapse(s) == " "
  {
    RunStep(s);
    assert Collapse(TrimStart(s)) == [];
  }

  /** A whitespace run followed by a word collapses to one space and the collapsed rest. */
  lemma CollapseRunThenWord(s: string)
    requires s != [] && IsWs(s[0]) && TrimStart(s) != []
    requires var t := TrimStart(s); Collapse(t) == Join(Words(t), " ") + EdgeSpace(t, false)
    ensures Words(s) != []
    ensures Collapse(s) == EdgeSpace(s, true) + Join(Words(s), " ") + EdgeSpace(s, false)
  {
    var t := TrimStart(s);
    RunStep(s);
    assert EdgeSpace(s, true) == " " && EdgeSpace(s, false) == EdgeSpace(t, false);
    LeadGlue(Collapse(s), Collapse(t), Join(Words(t), " "), EdgeSpace(t, false));
  }

  /** The final step of `CollapseRunThenWord`, over the values it has computed: the
      leading space goes in front of the joined words. */
  lemma LeadGlue(cs: string, ct: string, j: string, e: string)
    requires cs == " " + ct && ct == j + e
    ensures cs == " " + j + e
  {
  }

  /** Cleaning against the words of the text: the words joined by single spaces. Every
      whitespace run between two words becomes exactly one space, and runs at the ends
      disappear. */
  lemma CleanJoinsWords(s: string)
    ensures Clean(s) == Join(Words(s), " ")
  {
    if Words(s) == [] {
      CleanNoWords(s);
    } else {
      CleanSomeWords(s);
    }
  }

  /** `Clean` is `trim()` after `replace(/\s+/g, ' ')`. */
  lemma CleanUnfold(s: string)
    ensures Clean(s) == TrimEnd(TrimStart(Collapse(s)))
  {
  }

  lemma CleanNoWords(s: string)
    requires Words(s) == []
    ensures Clean(s) == Join(Words(s), " ")
  {
    CleanUnfold(s);
    CollapseJoinsWords(s);
    TrimBlank(Collapse(s));
  }

  lemma CleanSomeWords(s: string)
    requires Words(s) != []
    ensures Clean(s) == Join(Words(s), " ")
  {
    CleanUnfold(s);
    CollapseJoinsWords(s);
    JoinWordsEnds(Words(s));
    TrimPadded(Collapse(s), EdgeSpace(s, true), Join(Words(s), " "), EdgeSpace(s, false));
  }

  /** Trimming empty text or a lone space leaves nothing. */
  lemma TrimBlank(c: string)
    requires c == "" || c == " "
    ensures TrimEnd(TrimStart(c)) == ""
  {
    if c != "" {
      assert TrimStart(c) == TrimStart(c[1..]);
    }
  }

  /** Trimming text that is at most one space on either side of `j` gives `j` when `j`
      neither starts nor ends with whitespace. */
  lemma TrimPadded(c: string, pre: string, j: string, post: string)
    requires pre == "" || pre == " "
    requires post == "" || post == " "
    requires j != [] && !IsWs(j[0]) && !IsWs(j[|j| - 1])
    requires c == pre + j + post
    ensures TrimEnd(TrimStart(c)) == j
  {
    var jp := j + post;
    assert TrimStart(jp) == jp by {
      assert jp[0] == j[0];
    }
    if pre == " " {
      assert c[1..] == jp;
      assert TrimStart(c) == TrimStart(c[1..]);
    } else {
      assert c == jp;
    }
    if post == " " {
      assert jp[..|j|] == j;
      assert TrimEnd(jp) == TrimEnd(j);
    } else {
      assert jp == j;
    }
  }
}
