/** The language of the reader, for both parsers: a text is accepted exactly when it spells a tree, with gaps before,
    between and behind its tokens, and then the events are those of the tree. */
module JsonLanguage {
  import opened Bytes
  import opened Events
  import opened Grammar
  import opened JsonGaps
  import opened JsonLiterals
  import opened JsonText
  import opened JsonAccepted
  import Automaton
  import Decimal

  /** From `i` on stands the tree with a gap in front of each token, and `last` behind it. */
  ghost predicate Spells(env: Env, s: Text, i: nat, t: Tree, gaps: seq<Text>, last: Text) {
    && Well(env, t) && |gaps| == |Tokens(t)| && AllGaps(env.flags, gaps)
    && At(s, i, Spread(gaps, Tokens(t)) + last)
  }

  /** Nothing but a last gap stands behind the tree. */
  ghost predicate SpellsAll(env: Env, s: Text, i: nat, t: Tree, gaps: seq<Text>, last: Text) {
    Spells(env, s, i, t, gaps, last) && FinalGap(env.flags, last) && Peek(s, i + |Spread(gaps, Tokens(t))| + |last|) == 0
  }

  lemma LastEndsNumber(f: Flags, s: Text, p: nat, last: Text)
    requires At(s, p, last) && FinalGap(f, last) && Peek(s, p + |last|) == 0
    ensures Decimal.EndsNumber(Peek(s, p))
  {
    hide At, Gap, Comment;
    if last != [] {
      AtByte(s, p, last, 0);
      if Gap(f, last) {
        GapHead(f, last);
      } else {
        var n :| 0 <= n <= |last| && Gap(f, last[..n]) && OpenLine(last[n..]);
        if n > 0 {
          GapHead(f, last[..n]);
        }
      }
    }
  }

  lemma ParsersTell(env: Env, s: Text, i: nat, q: nat, trace: seq<Event>)
    requires i <= |s| && Skip(env.flags, s, i) == To(q) && Peek(s, q) != 0 && ReadValue(env, s, q, trace).Ok?
    ensures var o := ReadValue(env, s, q, trace); DocumentFrom(env, s, i, trace) == RootTail(env, s, o.pos, o.trace)
  {
    hide Skip, ReadValue, RootTail;
  }

  /** The tree of a spelled text is read. */
  lemma ReadsRoot(env: Env, s: Text, i: nat, trace: seq<Event>, t: Tree, gaps: seq<Text>, last: Text)
    requires KeepsAll(env) && Spells(env, s, i, t, gaps, last)
    requires t.Leaf? && IsNumberEvent(t.event) ==> Decimal.EndsNumber(Peek(s, i + |Spread(gaps, Tokens(t))|))
    ensures var p := i + |Spread(gaps, Tokens(t))|;
      i <= |s| && p <= |s| && At(s, p, last) && DocumentFrom(env, s, i, trace) == RootTail(env, s, p, trace + TreeEvents(t))
  {
    hide At, Spread, Tight, Gap, Skip, Well, Tokens, TreeEvents, ReadValue, DocumentFrom, RootTail;
    var toks := Tokens(t);
    AtSplit(s, i, Spread(gaps, toks), last);
    Within(s, i, Spread(gaps, toks));
    TreeHead(env, t);
    NextToken(env.flags, s, i, gaps, toks);
    var q := i + |gaps[0]|;
    ReadsTree(env, t, gaps, s, q, trace);
    ParsersTell(env, s, i, q, trace);
  }

  /** Both parsers accept a spelled text, to its end and in the events of its tree. */
  lemma ReadsSpelled(env: Env, s: Text, i: nat, trace: seq<Event>, t: Tree, gaps: seq<Text>, last: Text)
    requires KeepsAll(env) && !env.flags.stopWhenDone && SpellsAll(env, s, i, t, gaps, last)
    ensures i <= |s|
    ensures DocumentFrom(env, s, i, trace) == Automaton.IterativeDocumentFrom(env, s, i, trace)
         == Ok(i + |Spread(gaps, Tokens(t))| + |last|, trace + TreeEvents(t))
  {
    hide At, Spread, Gap, FinalGap, Skip, Well, Tokens, TreeEvents, DocumentFrom, Automaton.IterativeDocumentFrom;
    var p := i + |Spread(gaps, Tokens(t))|;
    AtSplit(s, i, Spread(gaps, Tokens(t)), last);
    LastEndsNumber(env.flags, s, p, last);
    ReadsRoot(env, s, i, trace, t, gaps, last);
    SkipsFinalGap(env.flags, s, p, last);
    Automaton.AcceptedAlike(env, s, i, trace);
  }

  /** With the flag that stops when the value is done, what stands behind it is not looked at, but must not go on a
      number. */
  lemma ReadsOne(env: Env, s: Text, i: nat, trace: seq<Event>, t: Tree, gaps: seq<Text>, last: Text)
    requires KeepsAll(env) && env.flags.stopWhenDone && Spells(env, s, i, t, gaps, last)
    requires t.Leaf? && IsNumberEvent(t.event) ==> Decimal.EndsNumber(Peek(s, i + |Spread(gaps, Tokens(t))|))
    ensures i <= |s|
    ensures DocumentFrom(env, s, i, trace) == Automaton.IterativeDocumentFrom(env, s, i, trace)
         == Ok(i + |Spread(gaps, Tokens(t))|, trace + TreeEvents(t))
  {
    hide At, Spread, Gap, Skip, Well, Tokens, TreeEvents, DocumentFrom, Automaton.IterativeDocumentFrom, Spells;
    ReadsRoot(env, s, i, trace, t, gaps, last);
    Automaton.AcceptedAlike(env, s, i, trace);
  }

  lemma DocumentOk(env: Env, s: Text, i: nat, trace: seq<Event>) returns (q: nat)
    requires i <= |s| && DocumentFrom(env, s, i, trace).Ok?
    ensures Skip(env.flags, s, i) == To(q) && q < |s| && Peek(s, q) != 0 && ReadValue(env, s, q, trace).Ok?
    ensures var o := ReadValue(env, s, q, trace);
      q < o.pos <= |s| && DocumentFrom(env, s, i, trace) == RootTail(env, s, o.pos, o.trace)
  {
    hide Skip, ReadValue, RootTail;
    q := Skip(env.flags, s, i).pos;
  }

  /** Whatever is accepted, whatever the handler, was spelled, and the events are those of the tree. */
  lemma AcceptedIsSpelled(env: Env, s: Text, i: nat, trace: seq<Event>) returns (t: Tree, gaps: seq<Text>, last: Text)
    requires i <= |s| && DocumentFrom(env, s, i, trace).Ok?
    ensures Spells(env, s, i, t, gaps, last) && (!env.flags.stopWhenDone ==> SpellsAll(env, s, i, t, gaps, last))
    ensures DocumentFrom(env, s, i, trace) == Ok(i + |Spread(gaps, Tokens(t))| + |last|, trace + TreeEvents(t))
  {
    hide At, Spread, Tight, Gap, OpenLine, Skip, Well, Tokens, TreeEvents, DocumentFrom, ReadValue;
    var q := DocumentOk(env, s, i, trace);
    SkippedGap(env.flags, s, i);
    var g;
    t, g := FoundTree(env, s, q, trace);
    var toks := Tokens(t);
    Led(env.flags, s, i, s[i..q], g, toks);
    gaps := [s[i..q]] + g[1..];
    var p := i + |Spread(gaps, toks)|;
    var end := DocumentFrom(env, s, i, trace).pos;
    LastGap(env, s, p, ReadValue(env, s, q, trace).trace);
    last := s[p..end];
    AtSplit(s, i, Spread(gaps, toks), last);
  }

  lemma LastGap(env: Env, s: Text, p: nat, trace: seq<Event>)
    requires p <= |s| && RootTail(env, s, p, trace).Ok?
    ensures var end := RootTail(env, s, p, trace).pos;
      && p <= end <= |s| && RootTail(env, s, p, trace).trace == trace && At(s, p, s[p..end])
      && (!env.flags.stopWhenDone ==> FinalGap(env.flags, s[p..end]) && Peek(s, end) == 0)
  {
    hide Gap, OpenLine, Skip;
    if !env.flags.stopWhenDone {
      SkippedIsGap(env.flags, s, p);
    }
  }

  /** Neither parser accepts anything else. */
  lemma AcceptsExactly(env: Env, s: Text, i: nat, trace: seq<Event>)
    requires KeepsAll(env) && !env.flags.stopWhenDone && i <= |s|
    ensures DocumentFrom(env, s, i, trace).Ok? <==> exists t, gaps, last :: SpellsAll(env, s, i, t, gaps, last)
    ensures Automaton.IterativeDocumentFrom(env, s, i, trace).Ok? <==> exists t, gaps, last :: SpellsAll(env, s, i, t, gaps, last)
  {
    hide DocumentFrom, Automaton.IterativeDocumentFrom, SpellsAll, Spells, TreeEvents, Spread, Tokens;
    Automaton.ParsersAgree(env, s, i, trace);
    if DocumentFrom(env, s, i, trace).Ok? {
      var t, gaps, last := AcceptedIsSpelled(env, s, i, trace);
    }
    if t, gaps, last :| SpellsAll(env, s, i, t, gaps, last) {
      ReadsSpelled(env, s, i, trace, t, gaps, last);
    }
  }
}
