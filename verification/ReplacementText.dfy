/** What Ruby's `gsub` makes of the replacement text: sequences that begin with a backslash stand for
    the match, the text before or after it, or a group.  `QueryRewriter` takes new names verbatim;
    here is exactly when that is what happens. */
module ReplacementText {
  import opened Wrappers
  import opened QueryRewriter

  /** The text after a backslash makes it a sequence that `gsub` replaces or refuses. */
  predicate Active(u: string) {
    u != [] &&
    (u[0] == '\\' || '0' <= u[0] <= '9' || u[0] == '&' || u[0] == '`' || u[0] == '\'' || (u[0] == 'k' && |u| > 1 && u[1] == '<'))
  }

  /** No backslash begins such a sequence. */
  predicate Inert(t: string) {
    forall i :: 0 <= i < |t| && t[i] == '\\' ==> !Active(t[i+1..])
  }

  function Joined(a: string, b: Option<string>): Option<string> {
    if b.Some? then Some(a + b.value) else None
  }

  /** The replacement for one match; a pattern without groups leaves `\1` to `\9` empty, and a named
      reference raises. */
  function Expand(t: string, pre: string, found: string, post: string): Option<string>
    decreases |t|
  {
    if t == [] then Some([])
    else if t[0] != '\\' || !Active(t[1..]) then Joined([t[0]], Expand(t[1..], pre, found, post))
    else
      match t[1]
      case '\\' => Joined("\\", Expand(t[2..], pre, found, post))
      case '0' => Joined(found, Expand(t[2..], pre, found, post))
      case '&' => Joined(found, Expand(t[2..], pre, found, post))
      case '`' => Joined(pre, Expand(t[2..], pre, found, post))
      case '\'' => Joined(post, Expand(t[2..], pre, found, post))
      case 'k' => None
      case _ => Expand(t[2..], pre, found, post)
  }

  /** `gsub` as in `QueryRewriter.Gsub`, with the replacement expanded at every match; `pre` is the
      query so far. */
  function ExpandingGsub(w: WordChars, after: bool, pre: string, s: string, old_: string, new_: string): Option<string>
    decreases |s|
  {
    var here := !after && old_ <= s && (|s| > |old_| ==> !w(s[|old_|]));
    if here && old_ != [] then
      var e := Expand(new_, pre, old_, s[|old_|..]);
      if e.Some? then Joined(e.value, ExpandingGsub(w, w(old_[|old_|-1]), pre + old_, s[|old_|..], old_, new_)) else None
    else
      var e := if here then Expand(new_, pre, old_, s) else Some([]);
      if e.None? then None
      else if s == [] then e
      else Joined(e.value, Joined([s[0]], ExpandingGsub(w, w(s[0]), pre + [s[0]], s[1..], old_, new_)))
  }

  function ExpandingRewrite(w: WordChars, query: string, ps: seq<Renaming>): Option<string>
    decreases |ps|
  {
    if ps == [] then Some(query)
    else
      var q := ExpandingGsub(w, false, [], query, ps[0].old_, ps[0].new_);
      if q.Some? then ExpandingRewrite(w, q.value, ps[1..]) else None
  }

  // ----- text that stands for itself

  lemma InertTail(t: string)
    requires t != [] && Inert(t)
    ensures Inert(t[1..]) && (t[0] == '\\' ==> !Active(t[1..]))
  {
    forall i | 0 <= i < |t[1..]| && t[1..][i] == '\\' ensures !Active(t[1..][i+1..]) {
      assert t[i+1] == '\\' && t[1..][i+1..] == t[i+2..];
    }
  }

  lemma {:induction false} InertIsVerbatim(t: string, pre: string, found: string, post: string)
    requires Inert(t)
    ensures Expand(t, pre, found, post) == Some(t)
  {
    if t != [] {
      InertTail(t);
      InertIsVerbatim(t[1..], pre, found, post);
      assert t == [t[0]] + t[1..];
    }
  }

  lemma {:induction false} InertGsub(w: WordChars, after: bool, pre: string, s: string, old_: string, new_: string)
    requires Inert(new_)
    ensures ExpandingGsub(w, after, pre, s, old_, new_) == Some(Gsub(w, after, s, old_, new_))
    decreases |s|
  {
    var here := !after && old_ <= s && (|s| > |old_| ==> !w(s[|old_|]));
    if here && old_ != [] {
      InertIsVerbatim(new_, pre, old_, s[|old_|..]);
      InertGsub(w, w(old_[|old_|-1]), pre + old_, s[|old_|..], old_, new_);
    } else {
      InertIsVerbatim(new_, pre, old_, s);
      if s != [] {
        InertGsub(w, w(s[0]), pre + [s[0]], s[1..], old_, new_);
      } else {
        var put: string := if here then new_ else [];
        assert Gsub(w, after, s, old_, new_) == put + [] == put;
      }
    }
  }

  // ----- text that does not

  /** What a backslash and the character after it stand for. */
  lemma SequenceMeans(c: char, rest: string, pre: string, found: string, post: string)
    ensures var t, e := ['\\', c] + rest, Expand(rest, pre, found, post);
      && (c == '&' || c == '0' ==> Expand(t, pre, found, post) == Joined(found, e))
      && (c == '`' ==> Expand(t, pre, found, post) == Joined(pre, e))
      && (c == '\'' ==> Expand(t, pre, found, post) == Joined(post, e))
      && (c == '\\' ==> Expand(t, pre, found, post) == Joined("\\", e))
      && ('1' <= c <= '9' ==> Expand(t, pre, found, post) == e)
      && (c == 'k' && rest != [] && rest[0] == '<' ==> Expand(t, pre, found, post) == None)
      && (!Active([c] + rest) ==> Expand(t, pre, found, post) == Joined("\\", Expand([c] + rest, pre, found, post)))
  {
    TwoCharacters(c, rest);
  }

  lemma TwoCharacters(c: char, rest: string)
    ensures var t := ['\\', c] + rest;
      t[0] == '\\' && t[1..] == [c] + rest && t[1] == c && t[2..] == rest
  {
  }

  function Backslashes(t: string): nat {
    if t == [] then 0 else (if t[0] == '\\' then 1 else 0) + Backslashes(t[1..])
  }

  lemma {:induction false} BackslashesAppend(a: string, b: string)
    ensures Backslashes(a + b) == Backslashes(a) + Backslashes(b)
  {
    if a == [] {
      assert a + b == b;
    } else {
      assert (a + b)[1..] == a[1..] + b;
      BackslashesAppend(a[1..], b);
    }
  }

  /** Where nothing surrounds the match, expansion never adds a backslash, and loses one with the
      first sequence it replaces. */
  lemma {:induction false} ExpansionLoses(t: string, found: string)
    requires Backslashes(found) == 0
    ensures var e := Expand(t, [], found, []);
      e.Some? ==> Backslashes(e.value) <= Backslashes(t) && (!Inert(t) ==> Backslashes(e.value) < Backslashes(t))
    decreases |t|
  {
    if t != [] {
      if t[0] != '\\' || !Active(t[1..]) {
        ExpansionLoses(t[1..], found);
        if Inert(t[1..]) {
          TailDecides(t);
        }
        var e := Expand(t[1..], [], found, []);
        if e.Some? {
          BackslashesAppend([t[0]], e.value);
          assert Backslashes([t[0]]) == (if t[0] == '\\' then 1 else 0) by {
            assert [t[0]][1..] == [];
          }
        }
      } else {
        ExpansionLoses(t[2..], found);
        SequenceLoses(t, found);
      }
    }
  }

  lemma TailDecides(t: string)
    requires t != [] && (t[0] != '\\' || !Active(t[1..])) && Inert(t[1..])
    ensures Inert(t)
  {
    forall i | 0 <= i < |t| && t[i] == '\\' ensures !Active(t[i+1..]) {
      if i > 0 {
        assert t[1..][i-1] == '\\' && t[1..][i..] == t[i+1..];
      }
    }
  }

  lemma SequenceLoses(t: string, found: string)
    requires |t| > 1 && t[0] == '\\' && Active(t[1..]) && Backslashes(found) == 0
    requires var e := Expand(t[2..], [], found, []); e.Some? ==> Backslashes(e.value) <= Backslashes(t[2..])
    ensures var e := Expand(t, [], found, []); e.Some? ==> Backslashes(e.value) < Backslashes(t)
  {
    var rest := Expand(t[2..], [], found, []);
    assert t[1..][1..] == t[2..] && t[1..][0] == t[1];
    assert Backslashes(t) == 1 + (if t[1] == '\\' then 1 else 0) + Backslashes(t[2..]);
    if rest.Some? {
      BackslashesAppend("\\", rest.value);
      BackslashesAppend(found, rest.value);
      BackslashesAppend([], rest.value);
      assert Backslashes("\\") == 1 by {
        assert "\\"[1..] == "";
      }
    }
  }

  lemma {:induction false} WordsHaveNone(w: WordChars, t: string)
    requires !w('\\') && forall i :: 0 <= i < |t| ==> w(t[i])
    ensures Backslashes(t) == 0
  {
    if t != [] {
      WordsHaveNone(w, t[1..]);
    }
  }

  /** On the old name by itself the whole result is the expansion. */
  lemma GsubOfOldName(w: WordChars, old_: string, new_: string)
    requires Word(w, old_)
    ensures ExpandingGsub(w, false, [], old_, old_, new_) == Expand(new_, [], old_, [])
  {
    assert old_[|old_|..] == [];
    var e := Expand(new_, [], old_, []);
    if e.Some? {
      assert e.value + [] == e.value;
    }
  }

  /** Renaming one table is token replacement by the new name itself, on every query, if and only if
      no backslash in the new name begins a sequence. */
  lemma RenameIsTokenReplacementIff(w: WordChars, old_: string, new_: string)
    requires Word(w, old_) && !w('\\')
    ensures (forall query :: ExpandingGsub(w, false, [], query, old_, new_) == Some(Substitute(Tokens(w, query), Replacing(old_, new_))))
            <==> Inert(new_)
  {
    if Inert(new_) {
      forall query ensures ExpandingGsub(w, false, [], query, old_, new_) == Some(Substitute(Tokens(w, query), Replacing(old_, new_))) {
        InertGsub(w, false, [], query, old_, new_);
        RenameIsTokenReplacement(w, query, old_, new_);
      }
    } else {
      WordsHaveNone(w, old_);
      ExpansionLoses(new_, old_);
      GsubOfOldName(w, old_, new_);
      OneToken(w, old_, Replacing(old_, new_));
      assert ExpandingGsub(w, false, [], old_, old_, new_) != Some(Substitute(Tokens(w, old_), Replacing(old_, new_)));
    }
  }

  // ----- all renamings

  ghost predicate AllInert(ps: seq<Renaming>) {
    forall i :: 0 <= i < |ps| ==> Inert(ps[i].new_)
  }

  lemma {:induction false} InertRewrite(w: WordChars, query: string, ps: seq<Renaming>)
    requires AllInert(ps)
    ensures ExpandingRewrite(w, query, ps) == Some(Rewrite(w, query, ps))
    decreases |ps|
  {
    if ps != [] {
      InertGsub(w, false, [], query, ps[0].old_, ps[0].new_);
      InertRewrite(w, Gsub(w, false, query, ps[0].old_, ps[0].new_), ps[1..]);
    }
  }

  /** For new names that stand for themselves, as every table name does, the fold that Ruby runs is
      the simultaneous substitution on every query if and only if there is no chain. */
  lemma ExpandingFoldIsSimultaneousIff(w: WordChars, ps: seq<Renaming>)
    requires Renamings(w, ps) && AllInert(ps)
    ensures (forall query :: ExpandingRewrite(w, query, ps) == Some(Simultaneous(w, query, ps))) <==> NoChain(w, ps)
  {
    forall query ensures ExpandingRewrite(w, query, ps) == Some(Rewrite(w, query, ps)) {
      InertRewrite(w, query, ps);
    }
    FoldIsSimultaneousIff(w, ps);
    if !NoChain(w, ps) {
      var query :| Rewrite(w, query, ps) != Simultaneous(w, query, ps);
      assert ExpandingRewrite(w, query, ps) != Some(Simultaneous(w, query, ps));
    }
  }
}
