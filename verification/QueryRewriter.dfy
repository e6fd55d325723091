/** `rewrite_query_for_renamed_tables`: table names in a query are replaced where they stand as whole
    words.  `w` tells word characters from separators; everything holds for every choice of it. */
module QueryRewriter {

  type WordChars = char -> bool

  /** `gsub(/(?<!W)old(?!W)/, new)` from left to right; `after` says that the character before `s` is
      a word character. */
  function Gsub(w: WordChars, after: bool, s: string, old_: string, new_: string): string
    decreases |s|
  {
    var here := !after && old_ <= s && (|s| > |old_| ==> !w(s[|old_|]));
    if here && old_ != [] then
      new_ + Gsub(w, w(old_[|old_|-1]), s[|old_|..], old_, new_)
    else
      (if here then new_ else []) + (if s == [] then [] else [s[0]] + Gsub(w, w(s[0]), s[1..], old_, new_))
  }

  datatype Renaming = Renaming(old_: string, new_: string)

  /** The fold over the renamed tables. */
  function Rewrite(w: WordChars, query: string, ps: seq<Renaming>): string
    decreases |ps|
  {
    if ps == [] then query else Rewrite(w, Gsub(w, false, query, ps[0].old_, ps[0].new_), ps[1..])
  }

  // ----- words and separators

  predicate Word(w: WordChars, s: string) {
    s != [] && forall i :: 0 <= i < |s| ==> w(s[i])
  }

  predicate Separator(w: WordChars, s: string) {
    |s| == 1 && !w(s[0])
  }

  /** Maximal runs of word characters, and the characters between them. */
  function Tokens(w: WordChars, s: string): (r: seq<string>)
    ensures s != [] ==> r != []
  {
    if s == [] then []
    else
      var r := Tokens(w, s[1..]);
      if w(s[0]) && |s| > 1 && w(s[1]) then Glue(s[0], r) else [[s[0]]] + r
  }

  function Glue(c: char, r: seq<string>): (t: seq<string>)
    requires r != []
    ensures t != []
  {
    [[c] + r[0]] + r[1..]
  }

  function Flatten(ts: seq<string>): string {
    if ts == [] then [] else ts[0] + Flatten(ts[1..])
  }

  /** Every token replaced by its image. */
  function Substitute(ts: seq<string>, f: string -> string): string {
    if ts == [] then [] else f(ts[0]) + Substitute(ts[1..], f)
  }

  /** `ts` is a split into words and separators in which no two words touch. */
  ghost predicate IsSplit(w: WordChars, ts: seq<string>) {
    && (forall i :: 0 <= i < |ts| ==> Word(w, ts[i]) || Separator(w, ts[i]))
    && (forall i :: 0 <= i < |ts| - 1 ==> Separator(w, ts[i]) || Separator(w, ts[i+1]))
  }

  lemma FlattenGlue(c: char, r: seq<string>)
    requires r != []
    ensures Flatten(Glue(c, r)) == [c] + Flatten(r)
  {
    assert Glue(c, r)[1..] == r[1..];
    assert [c] + r[0] + Flatten(r[1..]) == [c] + (r[0] + Flatten(r[1..]));
  }

  lemma FlattenCons(t: string, r: seq<string>)
    ensures Flatten([t] + r) == t + Flatten(r)
  {
    assert ([t] + r)[1..] == r;
  }

  lemma {:induction false} TokensFlatten(w: WordChars, s: string)
    ensures Flatten(Tokens(w, s)) == s
    ensures s != [] ==> Tokens(w, s)[0] != [] && Tokens(w, s)[0][0] == s[0]
  {
    if s != [] {
      var r := Tokens(w, s[1..]);
      TokensFlatten(w, s[1..]);
      assert [s[0]] + s[1..] == s;
      if w(s[0]) && |s| > 1 && w(s[1]) {
        FlattenGlue(s[0], r);
      } else {
        FlattenCons([s[0]], r);
      }
    }
  }

  lemma {:induction false} TokensSplit(w: WordChars, s: string)
    ensures IsSplit(w, Tokens(w, s))
  {
    if s != [] {
      var r, t := Tokens(w, s[1..]), Tokens(w, s);
      TokensSplit(w, s[1..]);
      TokensFlatten(w, s[1..]);
      if w(s[0]) && |s| > 1 && w(s[1]) {
        assert Word(w, r[0]) && Word(w, t[0]);
        assert forall i :: 1 <= i < |t| ==> t[i] == r[i];
      } else {
        assert forall i :: 1 <= i < |t| ==> t[i] == r[i-1];
        assert |t| > 1 ==> Separator(w, t[0]) || Separator(w, t[1]);
      }
    }
  }

  lemma SplitTail(w: WordChars, ts: seq<string>)
    requires IsSplit(w, ts) && ts != []
    ensures IsSplit(w, ts[1..])
    ensures Word(w, ts[0]) && |ts| > 1 ==> Separator(w, ts[1])
  {
  }

  lemma {:induction false} WordThenTokens(w: WordChars, t: string, rest: string)
    requires Word(w, t) && (rest != [] ==> !w(rest[0]))
    ensures Tokens(w, t + rest) == [t] + Tokens(w, rest)
  {
    assert (t + rest)[1..] == t[1..] + rest;
    if |t| > 1 {
      WordThenTokens(w, t[1..], rest);
      assert [t[0]] + t[1..] == t;
    } else {
      assert t[1..] + rest == rest && [t[0]] == t;
    }
  }

  lemma SeparatorThenTokens(w: WordChars, t: string, rest: string)
    requires Separator(w, t)
    ensures Tokens(w, t + rest) == [t] + Tokens(w, rest)
  {
    assert (t + rest)[1..] == rest && [t[0]] == t;
  }

  /** There is only one such split. */
  lemma {:induction false} SplitIsUnique(w: WordChars, ts: seq<string>)
    requires IsSplit(w, ts)
    ensures Tokens(w, Flatten(ts)) == ts
  {
    if ts != [] {
      SplitTail(w, ts);
      SplitIsUnique(w, ts[1..]);
      if Separator(w, ts[0]) {
        SeparatorThenTokens(w, ts[0], Flatten(ts[1..]));
      } else {
        WordThenTokens(w, ts[0], Flatten(ts[1..]));
      }
    }
  }

  lemma GlueAppend(c: char, r: seq<string>, q: seq<string>)
    requires r != []
    ensures Glue(c, r + q) == Glue(c, r) + q
  {
    assert (r + q)[1..] == r[1..] + q;
  }

  lemma ConsAppend(t: string, r: seq<string>, q: seq<string>)
    ensures [t] + (r + q) == ([t] + r) + q
  {
  }

  /** Texts that do not touch with words are split separately. */
  lemma {:induction false} TokensAppend(w: WordChars, a: string, b: string)
    requires a != [] && b != [] ==> !w(a[|a|-1]) || !w(b[0])
    ensures Tokens(w, a + b) == Tokens(w, a) + Tokens(w, b)
  {
    if a == [] {
      assert a + b == b;
    } else {
      var s, r, q := a + b, Tokens(w, a[1..]), Tokens(w, b);
      assert s[1..] == a[1..] + b && s[0] == a[0];
      TokensAppend(w, a[1..], b);
      if |a| > 1 {
        assert s[1] == a[1];
        if w(a[0]) && w(a[1]) {
          GlueAppend(a[0], r, q);
        } else {
          ConsAppend([a[0]], r, q);
        }
      } else {
        assert |s| > 1 ==> s[1] == b[0];
        ConsAppend([a[0]], r, q);
      }
    }
  }

  // ----- one renaming

  function Replacing(old_: string, new_: string): string -> string {
    (t: string) => if t == old_ then new_ else t
  }

  /** Inside a word nothing matches. */
  lemma {:induction false} InsideWord(w: WordChars, t: string, rest: string, old_: string, new_: string)
    requires forall i :: 0 <= i < |t| ==> w(t[i])
    ensures Gsub(w, true, t + rest, old_, new_) == t + Gsub(w, true, rest, old_, new_)
  {
    if t == [] {
      assert t + rest == rest;
    } else {
      assert (t + rest)[1..] == t[1..] + rest;
      InsideWord(w, t[1..], rest, old_, new_);
      assert [t[0]] + t[1..] == t;
    }
  }

  /** A word is not mistaken for another one that begins where it does. */
  lemma NoOtherWord(w: WordChars, t: string, rest: string, old_: string)
    requires Word(w, t) && Word(w, old_) && t != old_ && (rest != [] ==> !w(rest[0]))
    ensures var s := t + rest; old_ <= s ==> |s| > |old_| && w(s[|old_|])
  {
    var s := t + rest;
    assert s[..|t|] == t;
    if |old_| > |t| && rest != [] {
      assert s[|t|] == rest[0];
      NotPrefix(old_, s, |t|);
    } else if |old_| < |t| {
      assert s[|old_|] == t[|old_|];
    }
  }

  lemma NotPrefix(a: string, b: string, k: nat)
    requires k < |a| && k < |b| && a[k] != b[k]
    ensures !(a <= b)
  {
  }

  /** A word is replaced exactly when it is the old name. */
  lemma WordReplaced(w: WordChars, t: string, rest: string, old_: string, new_: string)
    requires Word(w, t) && Word(w, old_) && (rest != [] ==> !w(rest[0]))
    ensures Gsub(w, false, t + rest, old_, new_) == Replacing(old_, new_)(t) + Gsub(w, true, rest, old_, new_)
  {
    var s := t + rest;
    if t == old_ {
      assert s[|old_|..] == rest && old_ <= s;
    } else {
      NoOtherWord(w, t, rest, old_);
      assert s[1..] == t[1..] + rest;
      InsideWord(w, t[1..], rest, old_, new_);
      assert [t[0]] + (t[1..] + Gsub(w, true, rest, old_, new_)) == t + Gsub(w, true, rest, old_, new_);
    }
  }

  lemma SeparatorPassed(w: WordChars, after: bool, t: string, rest: string, old_: string, new_: string)
    requires Separator(w, t) && Word(w, old_)
    ensures Gsub(w, after, t + rest, old_, new_) == Replacing(old_, new_)(t) + Gsub(w, false, rest, old_, new_)
  {
    assert (t + rest)[1..] == rest;
    assert old_[0] != t[0];
  }

  lemma {:induction false} SplitReplaced(w: WordChars, after: bool, ts: seq<string>, old_: string, new_: string)
    requires IsSplit(w, ts) && Word(w, old_) && (after && ts != [] ==> Separator(w, ts[0]))
    ensures Gsub(w, after, Flatten(ts), old_, new_) == Substitute(ts, Replacing(old_, new_))
    decreases |ts|
  {
    if ts != [] {
      var t, rest := ts[0], Flatten(ts[1..]);
      SplitTail(w, ts);
      if Separator(w, t) {
        SeparatorPassed(w, after, t, rest, old_, new_);
        SplitReplaced(w, false, ts[1..], old_, new_);
      } else {
        WordReplaced(w, t, rest, old_, new_);
        SplitReplaced(w, true, ts[1..], old_, new_);
      }
    }
  }

  /** Renaming one table is exactly token replacement: the words equal to the old name become the
      new name, and every other character stays. */
  lemma RenameIsTokenReplacement(w: WordChars, query: string, old_: string, new_: string)
    requires Word(w, old_)
    ensures Gsub(w, false, query, old_, new_) == Substitute(Tokens(w, query), Replacing(old_, new_))
  {
    TokensSplit(w, query);
    TokensFlatten(w, query);
    SplitReplaced(w, false, Tokens(w, query), old_, new_);
  }

  // ----- all renamings

  /** Simultaneous substitution: what a word becomes under the whole list. */
  function Image(ps: seq<Renaming>, t: string): string {
    if ps == [] then t else if t == ps[0].old_ then ps[0].new_ else Image(ps[1..], t)
  }

  function Images(ps: seq<Renaming>): string -> string {
    (t: string) => Image(ps, t)
  }

  function Simultaneous(w: WordChars, query: string, ps: seq<Renaming>): string {
    Substitute(Tokens(w, query), Images(ps))
  }

  /** Old names are words, and no two are the same, as keys of a hash. */
  ghost predicate Renamings(w: WordChars, ps: seq<Renaming>) {
    && (forall i :: 0 <= i < |ps| ==> Word(w, ps[i].old_))
    && (forall i, j :: 0 <= i < j < |ps| ==> ps[i].old_ != ps[j].old_)
  }

  /** No later renaming changes a word of an earlier new name. */
  ghost predicate NoChain(w: WordChars, ps: seq<Renaming>) {
    forall i, j :: 0 <= i < j < |ps| && ps[j].old_ in Tokens(w, ps[i].new_) ==> ps[j].new_ == ps[j].old_
  }

  lemma {:induction false} SubstituteAppend(a: seq<string>, b: seq<string>, f: string -> string)
    ensures Substitute(a + b, f) == Substitute(a, f) + Substitute(b, f)
  {
    if a == [] {
      assert a + b == b;
    } else {
      assert (a + b)[1..] == a[1..] + b;
      SubstituteAppend(a[1..], b, f);
    }
  }

  lemma {:induction false} SubstituteSame(ts: seq<string>, f: string -> string, g: string -> string)
    requires forall t :: t in ts ==> f(t) == g(t)
    ensures Substitute(ts, f) == Substitute(ts, g)
  {
    if ts != [] {
      SubstituteSame(ts[1..], f, g);
    }
  }

  lemma {:induction false} SubstituteIdentity(ts: seq<string>, f: string -> string)
    requires forall t :: t in ts ==> f(t) == t
    ensures Substitute(ts, f) == Flatten(ts)
  {
    if ts != [] {
      SubstituteIdentity(ts[1..], f);
    }
  }

  lemma {:induction false} SeparatorKept(w: WordChars, ps: seq<Renaming>, t: string)
    requires Renamings(w, ps) && Separator(w, t)
    ensures Image(ps, t) == t
  {
    if ps != [] {
      RenamingsTail(w, ps);
      SeparatorKept(w, ps[1..], t);
    }
  }

  lemma RenamingsTail(w: WordChars, ps: seq<Renaming>)
    requires Renamings(w, ps) && ps != []
    ensures Renamings(w, ps[1..])
  {
  }

  /** Where the first piece of a substitution ends, a separator keeps it from the rest. */
  lemma PiecesApart(w: WordChars, ts: seq<string>, f: string -> string)
    requires IsSplit(w, ts) && ts != []
    requires forall t :: Separator(w, t) ==> f(t) == t
    ensures var a, b := f(ts[0]), Substitute(ts[1..], f);
      a != [] && b != [] ==> !w(a[|a|-1]) || !w(b[0])
  {
    SplitTail(w, ts);
    if Word(w, ts[0]) && |ts| > 1 {
      assert f(ts[1]) == ts[1] && ts[1..][0] == ts[1];
    }
  }

  /** Splitting what a substitution produced and substituting again is substituting twice, word by
      word: separators keep the pieces apart whatever the new names are. */
  lemma {:induction false} SubstituteTwice(w: WordChars, ts: seq<string>, f: string -> string, g: string -> string, h: string -> string)
    requires IsSplit(w, ts)
    requires forall t :: Separator(w, t) ==> f(t) == t
    requires forall t :: t in ts ==> h(t) == Substitute(Tokens(w, f(t)), g)
    ensures Substitute(Tokens(w, Substitute(ts, f)), g) == Substitute(ts, h)
    decreases |ts|
  {
    if ts != [] {
      var a, b := f(ts[0]), Substitute(ts[1..], f);
      SplitTail(w, ts);
      SubstituteTwice(w, ts[1..], f, g, h);
      PiecesApart(w, ts, f);
      TokensAppend(w, a, b);
      SubstituteAppend(Tokens(w, a), Tokens(w, b), g);
      assert ts[0] in ts;
    }
  }

  // ----- when one after the other is all at once

  /** Under `NoChain` the later renamings leave a new name alone. */
  lemma {:induction false} NewNameStays(w: WordChars, ps: seq<Renaming>, x: string)
    requires Renamings(w, ps) && forall j :: 0 <= j < |ps| && ps[j].old_ in Tokens(w, x) ==> ps[j].new_ == ps[j].old_
    ensures Simultaneous(w, x, ps) == x
  {
    forall t | t in Tokens(w, x) ensures Images(ps)(t) == t {
      ImageOfUnchanged(ps, t);
    }
    SubstituteIdentity(Tokens(w, x), Images(ps));
    TokensFlatten(w, x);
  }

  lemma {:induction false} ImageOfUnchanged(ps: seq<Renaming>, t: string)
    requires forall j :: 0 <= j < |ps| && ps[j].old_ == t ==> ps[j].new_ == t
    ensures Image(ps, t) == t
  {
    if ps != [] {
      assert forall j :: 0 <= j < |ps[1..]| ==> ps[1..][j] == ps[j+1];
      ImageOfUnchanged(ps[1..], t);
    }
  }

  lemma OneToken(w: WordChars, t: string, f: string -> string)
    requires Word(w, t) || Separator(w, t)
    ensures Tokens(w, t) == [t] && Substitute(Tokens(w, t), f) == f(t)
  {
    assert t + [] == t;
    if Word(w, t) {
      WordThenTokens(w, t, []);
    } else {
      SeparatorThenTokens(w, t, []);
    }
    var one := [t];
    assert one[1..] == [] && Substitute(one[1..], f) == [];
  }

  /** One word under the first renaming and then all the later ones. */
  lemma ImageInTwoSteps(w: WordChars, ps: seq<Renaming>, t: string)
    requires Renamings(w, ps) && ps != [] && (Word(w, t) || Separator(w, t))
    requires t == ps[0].old_ ==> Simultaneous(w, ps[0].new_, ps[1..]) == ps[0].new_
    ensures Simultaneous(w, Replacing(ps[0].old_, ps[0].new_)(t), ps[1..]) == Image(ps, t)
  {
    OneToken(w, t, Images(ps[1..]));
  }

  lemma {:induction false} FoldIsSimultaneous(w: WordChars, query: string, ps: seq<Renaming>)
    requires Renamings(w, ps) && NoChain(w, ps)
    ensures Rewrite(w, query, ps) == Simultaneous(w, query, ps)
    decreases |ps|
  {
    TokensSplit(w, query);
    TokensFlatten(w, query);
    if ps == [] {
      SubstituteIdentity(Tokens(w, query), Images(ps));
    } else {
      var p, rest, ts := ps[0], ps[1..], Tokens(w, query);
      RenamingsTail(w, ps);
      assert forall j :: 0 <= j < |rest| ==> rest[j] == ps[j+1];
      FoldIsSimultaneous(w, Gsub(w, false, query, p.old_, p.new_), rest);
      RenameIsTokenReplacement(w, query, p.old_, p.new_);
      NewNameStays(w, rest, p.new_);
      forall t | t in ts
        ensures Images(ps)(t) == Substitute(Tokens(w, Replacing(p.old_, p.new_)(t)), Images(rest))
      {
        ImageInTwoSteps(w, ps, t);
      }
      SubstituteTwice(w, ts, Replacing(p.old_, p.new_), Images(rest), Images(ps));
    }
  }

  // ----- and when it is not

  function Separators(w: WordChars, s: string): nat {
    if s == [] then 0 else (if w(s[0]) then 0 else 1) + Separators(w, s[1..])
  }

  lemma {:induction false} SeparatorsAppend(w: WordChars, a: string, b: string)
    ensures Separators(w, a + b) == Separators(w, a) + Separators(w, b)
  {
    if a == [] {
      assert a + b == b;
    } else {
      assert (a + b)[1..] == a[1..] + b;
      SeparatorsAppend(w, a[1..], b);
    }
  }

  lemma {:induction false} NoSeparators(w: WordChars, s: string)
    ensures Separators(w, s) == 0 <==> forall i :: 0 <= i < |s| ==> w(s[i])
  {
    if s != [] {
      NoSeparators(w, s[1..]);
      assert forall i :: 1 <= i < |s| ==> s[i] == s[1..][i-1];
    }
  }

  /** A substitution that keeps separators can only add to them; if it adds none, no word becomes
      anything with a separator in it. */
  lemma {:induction false} SeparatorsGrow(w: WordChars, ts: seq<string>, f: string -> string)
    requires IsSplit(w, ts) && forall t :: Separator(w, t) ==> f(t) == t
    ensures Separators(w, Substitute(ts, f)) >= Separators(w, Flatten(ts))
    ensures Separators(w, Substitute(ts, f)) == Separators(w, Flatten(ts)) ==>
              forall t :: t in ts && Word(w, t) ==> Separators(w, f(t)) == 0
    decreases |ts|
  {
    if ts != [] {
      SplitTail(w, ts);
      SeparatorsGrow(w, ts[1..], f);
      SeparatorsAppend(w, f(ts[0]), Substitute(ts[1..], f));
      SeparatorsAppend(w, ts[0], Flatten(ts[1..]));
      NoSeparators(w, ts[0]);
      assert ts == [ts[0]] + ts[1..];
    }
  }

  /** How many word characters a text begins with. */
  function LeadingWord(w: WordChars, s: string): nat {
    if s != [] && w(s[0]) then 1 + LeadingWord(w, s[1..]) else 0
  }

  lemma {:induction false} LeadingWordIs(w: WordChars, t: string, a: string)
    requires (forall i :: 0 <= i < |t| ==> w(t[i])) && (a != [] ==> !w(a[0]))
    ensures LeadingWord(w, t + a) == |t|
  {
    if t == [] {
      assert t + a == a;
    } else {
      assert (t + a)[1..] == t[1..] + a;
      LeadingWordIs(w, t[1..], a);
    }
  }

  /** Two word prefixes that end where the text does or at a separator are the same. */
  lemma SameWordPrefix(w: WordChars, t: string, u: string, a: string, b: string)
    requires t + a == u + b
    requires (forall i :: 0 <= i < |t| ==> w(t[i])) && (forall i :: 0 <= i < |u| ==> w(u[i]))
    requires (a != [] ==> !w(a[0])) && (b != [] ==> !w(b[0]))
    ensures t == u && a == b
  {
    LeadingWordIs(w, t, a);
    LeadingWordIs(w, u, b);
    assert (t + a)[..|t|] == t && (u + b)[..|u|] == u;
    assert (t + a)[|t|..] == a && (u + b)[|u|..] == b;
  }

  /** If words only become words, a text that a substitution gives back has every word unchanged. */
  lemma {:induction false} UnchangedWordByWord(w: WordChars, ts: seq<string>, f: string -> string)
    requires IsSplit(w, ts) && forall t :: Separator(w, t) ==> f(t) == t
    requires forall t :: t in ts && Word(w, t) ==> forall i :: 0 <= i < |f(t)| ==> w(f(t)[i])
    requires Substitute(ts, f) == Flatten(ts)
    ensures forall t :: t in ts ==> f(t) == t
    decreases |ts|
  {
    if ts != [] {
      var a, b := Substitute(ts[1..], f), Flatten(ts[1..]);
      SplitTail(w, ts);
      assert ts == [ts[0]] + ts[1..];
      assert ts[0] in ts;
      if Word(w, ts[0]) {
        if |ts| > 1 {
          assert Separator(w, ts[1]) && f(ts[1]) == ts[1] && ts[1..][0] == ts[1];
        }
        SameWordPrefix(w, f(ts[0]), ts[0], a, b);
      } else {
        assert (ts[0] + a)[1..] == a && (ts[0] + b)[1..] == b;
      }
      UnchangedWordByWord(w, ts[1..], f);
    }
  }

  lemma {:induction false} ImageOfOld(w: WordChars, ps: seq<Renaming>, j: nat)
    requires Renamings(w, ps) && j < |ps|
    ensures Image(ps, ps[j].old_) == ps[j].new_
  {
    if j > 0 {
      RenamingsTail(w, ps);
      ImageOfOld(w, ps[1..], j - 1);
    }
  }

  lemma ImagesKeepSeparators(w: WordChars, ps: seq<Renaming>)
    requires Renamings(w, ps)
    ensures forall t :: Separator(w, t) ==> Images(ps)(t) == t
  {
    forall t | Separator(w, t) ensures Images(ps)(t) == t {
      SeparatorKept(w, ps, t);
    }
  }

  /** A renaming that hits a word of `x` and is not idle changes `x`. */
  lemma HitChangesText(w: WordChars, ps: seq<Renaming>, x: string, j: nat)
    requires Renamings(w, ps) && j < |ps| && ps[j].old_ in Tokens(w, x) && ps[j].new_ != ps[j].old_
    ensures Simultaneous(w, x, ps) != x
  {
    var ts := Tokens(w, x);
    TokensSplit(w, x);
    TokensFlatten(w, x);
    ImagesKeepSeparators(w, ps);
    ImageOfOld(w, ps, j);
    if Substitute(ts, Images(ps)) == x {
      SeparatorsGrow(w, ts, Images(ps));
      forall t | t in ts && Word(w, t)
        ensures forall i :: 0 <= i < |Images(ps)(t)| ==> w(Images(ps)(t)[i])
      {
        NoSeparators(w, Images(ps)(t));
      }
      UnchangedWordByWord(w, ts, Images(ps));
    }
  }

  lemma {:induction false} NotAnOldName(ps: seq<Renaming>, t: string)
    requires forall j :: 0 <= j < |ps| ==> ps[j].old_ != t
    ensures Image(ps, t) == t
  {
    ImageOfUnchanged(ps, t);
  }

  lemma FoldOfWord(w: WordChars, q: string, ps: seq<Renaming>)
    requires ps != [] && Renamings(w, ps) && Word(w, q)
    ensures Rewrite(w, q, ps) == Rewrite(w, Replacing(ps[0].old_, ps[0].new_)(q), ps[1..])
    ensures Simultaneous(w, q, ps) == Image(ps, q)
  {
    OneToken(w, q, Replacing(ps[0].old_, ps[0].new_));
    RenameIsTokenReplacement(w, q, ps[0].old_, ps[0].new_);
    OneToken(w, q, Images(ps));
  }

  lemma NoChainCons(w: WordChars, ps: seq<Renaming>)
    requires ps != [] && NoChain(w, ps[1..])
    requires forall b :: 0 < b < |ps| && ps[b].old_ in Tokens(w, ps[0].new_) ==> ps[b].new_ == ps[b].old_
    ensures NoChain(w, ps)
  {
    forall a, b | 0 <= a < b < |ps| && ps[b].old_ in Tokens(w, ps[a].new_)
      ensures ps[b].new_ == ps[b].old_
    {
      if a > 0 {
        assert ps[1..][a-1] == ps[a] && ps[1..][b-1] == ps[b];
      }
    }
  }

  lemma FirstChain(w: WordChars, ps: seq<Renaming>) returns (b: nat)
    requires ps != [] && !NoChain(w, ps) && NoChain(w, ps[1..])
    ensures 0 < b < |ps| && ps[b].old_ in Tokens(w, ps[0].new_) && ps[b].new_ != ps[b].old_
  {
    b := 0;
    if c :| 0 < c < |ps| && ps[c].old_ in Tokens(w, ps[0].new_) && ps[c].new_ != ps[c].old_ {
      b := c;
    } else {
      NoChainCons(w, ps);
    }
  }

  lemma ChainFromFirst(w: WordChars, ps: seq<Renaming>)
    requires ps != [] && Renamings(w, ps) && !NoChain(w, ps) && Renamings(w, ps[1..]) && NoChain(w, ps[1..])
    ensures Rewrite(w, ps[0].old_, ps) != Simultaneous(w, ps[0].old_, ps)
  {
    var b := FirstChain(w, ps);
    assert ps[1..][b-1] == ps[b];
    FoldOfWord(w, ps[0].old_, ps);
    FoldIsSimultaneous(w, ps[0].new_, ps[1..]);
    HitChangesText(w, ps[1..], ps[0].new_, b - 1);
  }

  lemma FirstPasses(w: WordChars, ps: seq<Renaming>, i: nat)
    requires 0 < i < |ps| && Renamings(w, ps)
    ensures var q := ps[i].old_;
      Rewrite(w, q, ps) == Rewrite(w, q, ps[1..]) && Simultaneous(w, q, ps) == Simultaneous(w, q, ps[1..])
  {
    FoldOfWord(w, ps[i].old_, ps);
    OneToken(w, ps[i].old_, Images(ps[1..]));
  }

  /** With a chain some old name by itself is a query on which the fold differs. */
  lemma {:induction false} ChainBreaks(w: WordChars, ps: seq<Renaming>) returns (i: nat)
    requires Renamings(w, ps) && !NoChain(w, ps)
    ensures i < |ps| && Rewrite(w, ps[i].old_, ps) != Simultaneous(w, ps[i].old_, ps)
    decreases |ps|
  {
    RenamingsTail(w, ps);
    if NoChain(w, ps[1..]) {
      i := 0;
      ChainFromFirst(w, ps);
    } else {
      var k := ChainBreaks(w, ps[1..]);
      i := k + 1;
      FirstPasses(w, ps, i);
    }
  }

  /** The fold over the renamed tables is the simultaneous substitution on every query if and only
      if no later renaming changes a word of an earlier new name. */
  lemma FoldIsSimultaneousIff(w: WordChars, ps: seq<Renaming>)
    requires Renamings(w, ps)
    ensures (forall query :: Rewrite(w, query, ps) == Simultaneous(w, query, ps)) <==> NoChain(w, ps)
  {
    if NoChain(w, ps) {
      forall query ensures Rewrite(w, query, ps) == Simultaneous(w, query, ps) {
        FoldIsSimultaneous(w, query, ps);
      }
    } else {
      var i := ChainBreaks(w, ps);
    }
  }

  /** That no new name is a later old name is not enough: one that merely contains it as a word is
      rewritten again. */
  lemma PhraseChains(w: WordChars, a: string, b: string, c: string, space: string)
    requires Word(w, a) && Word(w, b) && a != b && c != b && Separator(w, space)
    ensures var ps := [Renaming(a, b + space), Renaming(b, c)];
      Renamings(w, ps) && ps[0].new_ != ps[1].old_ &&
      exists query :: Rewrite(w, query, ps) != Simultaneous(w, query, ps)
  {
    var ps := [Renaming(a, b + space), Renaming(b, c)];
    WordThenTokens(w, b, space);
    assert ps[1].old_ in Tokens(w, ps[0].new_);
    FoldIsSimultaneousIff(w, ps);
  }

  // ----- undoing

  function Inverse(ps: seq<Renaming>): seq<Renaming> {
    seq(|ps|, i requires 0 <= i < |ps| => Renaming(ps[i].new_, ps[i].old_))
  }

  /** New names are words, all different, and none is an old name. */
  ghost predicate Reversible(w: WordChars, ps: seq<Renaming>) {
    && Renamings(w, ps) && Renamings(w, Inverse(ps))
    && forall i, j :: 0 <= i < |ps| && 0 <= j < |ps| ==> ps[i].new_ != ps[j].old_
  }

  lemma ReversibleHasNoChain(w: WordChars, ps: seq<Renaming>)
    requires Reversible(w, ps)
    ensures NoChain(w, ps) && NoChain(w, Inverse(ps))
  {
    var qs := Inverse(ps);
    forall i | 0 <= i < |ps| ensures Tokens(w, ps[i].new_) == [ps[i].new_] && Tokens(w, qs[i].new_) == [qs[i].new_] {
      assert Word(w, qs[i].old_) && Word(w, ps[i].old_);
      OneToken(w, ps[i].new_, Images(ps));
      OneToken(w, qs[i].new_, Images(ps));
    }
  }

  /** What a name becomes and what that becomes when undone. */
  lemma ThereAndBack(w: WordChars, ps: seq<Renaming>, t: string)
    requires Reversible(w, ps) && (forall i :: 0 <= i < |ps| ==> ps[i].new_ != t)
    ensures Image(Inverse(ps), Image(ps, t)) == t
    ensures Word(w, t) ==> Word(w, Image(ps, t))
  {
    var qs := Inverse(ps);
    if i :| 0 <= i < |ps| && ps[i].old_ == t {
      ImageOfOld(w, ps, i);
      ImageOfOld(w, qs, i);
      assert Word(w, qs[i].old_);
    } else {
      NotAnOldName(ps, t);
      NotAnOldName(qs, t);
    }
  }

  /** With new names that are words, differ, are not old names and do not occur in the query,
      applying the inverse renamings gives back the original query. */
  lemma InverseRestores(w: WordChars, query: string, ps: seq<Renaming>)
    requires Reversible(w, ps) && forall i :: 0 <= i < |ps| ==> ps[i].new_ !in Tokens(w, query)
    ensures Rewrite(w, Rewrite(w, query, ps), Inverse(ps)) == query
  {
    var qs, ts := Inverse(ps), Tokens(w, query);
    ReversibleHasNoChain(w, ps);
    FoldIsSimultaneous(w, query, ps);
    FoldIsSimultaneous(w, Simultaneous(w, query, ps), qs);
    TokensSplit(w, query);
    TokensFlatten(w, query);
    ImagesKeepSeparators(w, ps);
    var same := (t: string) => t;
    forall t | t in ts ensures same(t) == Substitute(Tokens(w, Images(ps)(t)), Images(qs)) {
      ThereAndBack(w, ps, t);
      OneToken(w, Images(ps)(t), Images(qs));
    }
    SubstituteTwice(w, ts, Images(ps), Images(qs), same);
    SubstituteIdentity(ts, same);
  }
}
