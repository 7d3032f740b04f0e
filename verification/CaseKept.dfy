/** What the smallest evidence level keeps of a case, member by member, in terms of the two cases. */
module CaseKept {
  import opened Expressions
  import opened Orders
  import opened CaseLinks
  import opened CaseProjection

  /** The id belongs to a member of the case other than an omission. */
  predicate Present(c: Case, id: string) {
    || (exists e <- c.entities :: e.id == id)
    || (exists l <- c.links :: l.id == id)
    || (exists p <- c.paths :: p.id == id)
    || (exists f <- c.facts :: f.id == id)
    || (exists u <- c.unknowns :: u.id == id)
    || (exists r <- c.records :: r.id == id)
  }

  /** A record is named by a fact, a path or a link of the case. */
  predicate Named(c: Case, record: string) {
    || (exists f <- c.facts :: f.provenance == record)
    || (exists p <- c.paths :: p.provenance == record)
    || (exists l <- c.links :: l.provenance == record)
  }

  lemma {:induction false} MentionedExactly(e: Expression, id: string)
    ensures Mentions(e, id) <==> id in References(e)
    decreases e, |e.operands|
  {
    MentionedAmong(e.operands, id);
  }

  lemma {:induction false} MentionedAmong(es: seq<Expression>, id: string)
    ensures (exists operand <- es :: Mentions(operand, id)) <==> id in ReferencesOf(es)
    decreases es, |es|
  {
    if es != [] {
      MentionedExactly(es[0], id);
      MentionedAmong(es[1..], id);
      assert es == [es[0]] + es[1..];
    }
  }

  /** A fact is kept exactly if it names an end of the claim. */
  lemma FactsKept(frame: Frame, before: Case, after: Case, f: Statement)
    requires Projected(frame, before, after)
    ensures f in after.facts
            <==> f in before.facts && (frame.subject in References(f.formula) || frame.source in References(f.formula))
  {
    hide OmissionsFollow, AllAccounted, AllNoted, Mentions, References;
    MentionedExactly(f.formula, frame.subject);
    MentionedExactly(f.formula, frame.source);
  }

  /** The two ids follow each other in the list. */
  predicate Consecutive(ids: seq<string>, first: string, second: string) {
    exists i | 0 < i < |ids| :: ids[i - 1] == first && ids[i] == second
  }

  /** A link is kept exactly if it joins two consecutive segments of the path that stays. */
  lemma LinksKept(frame: Frame, before: Case, after: Case, l: Link)
    requires Projected(frame, before, after)
    ensures l in after.links
            <==> l in before.links && after.paths != [] && Consecutive(after.paths[0].segments, l.from, l.to)
  {
    hide OmissionsFollow, AllAccounted, AllNoted, KeepsEntity, KeepsFact, KeepsUnknown, KeepsRecord, Trimmed, Kept;
    KeptHas(before.links, (x: Link) => KeepsLink(before, x));
    assert KeepsLink(before, l) <==> Consecutive(Segments(before), l.from, l.to);
  }

  /**
   * An entity is kept exactly if it is an end of the claim, named by a summary or the sink, a function, on the path
   * that stays, or mentioned by a fact or an unknown that stays.
   */
  lemma EntitiesKept(frame: Frame, before: Case, after: Case, e: Entity)
    requires Projected(frame, before, after) && e in before.entities
    ensures e in after.entities
            <==> || e.id == frame.subject || e.id == frame.source || e.id in frame.named
                 || (exists g <- before.entities :: g.isFunction && g.id == e.id)
                 || (after.paths != [] && e.id in after.paths[0].segments)
                 || (exists u <- after.unknowns :: e.id in References(u.property))
                 || (exists f <- after.facts :: e.id in References(f.formula))
  {
    hide OmissionsFollow, AllAccounted, AllNoted, References, KeepsFact, KeepsUnknown, KeepsLink, RetainedEntities;
    HeldExactly(frame, before, e.id);
  }

  /** The first unknown stays first, and with it stay exactly the unknowns that carry coverage. */
  lemma UnknownsKept(frame: Frame, before: Case, after: Case)
    requires Projected(frame, before, after) && before.unknowns != []
    ensures after.unknowns != [] && after.unknowns[0] == before.unknowns[0]
    ensures forall u <- before.unknowns ::
              u in after.unknowns <==> u.id == before.unknowns[0].id || u.id in frame.coverage
  {
    hide OmissionsFollow, AllAccounted, AllNoted, References;
    FirstKept(before.unknowns, (u: Unknown) => KeepsUnknown(frame, before, u), |before.unknowns|);
    assert before.unknowns[..|before.unknowns|] == before.unknowns;
  }

  lemma {:induction false} FirstKept<T>(s: seq<T>, keep: T -> bool, n: nat)
    requires 0 < n <= |s| && keep(s[0])
    ensures Kept(s[..n], keep) != [] && Kept(s[..n], keep)[0] == s[0]
    decreases n
  {
    assert s[..n][..n - 1] == s[..n - 1];
    if n > 1 {
      FirstKept(s, keep, n - 1);
    } else {
      assert s[..n][..n - 1] == [];
    }
  }

  /** A record stays exactly if a member of the projected case names it. */
  lemma RecordsKept(frame: Frame, before: Case, after: Case, r: Record)
    requires Projected(frame, before, after) && r in before.records
    ensures (exists kept <- after.records :: kept.id == r.id) <==> Named(after, r.id)
  {
    hide OmissionsFollow, AllAccounted, AllNoted, KeepsFact, KeepsLink;
    if Named(after, r.id) {
      RecordStays(frame, before, after, r);
    }
    if kept :| kept in after.records && kept.id == r.id {
      RecordNamed(frame, before, after, kept);
    }
  }

  lemma RecordNamed(frame: Frame, before: Case, after: Case, kept: Record)
    requires Projected(frame, before, after) && kept in after.records
    ensures Named(after, kept.id) && exists r <- before.records :: r.id == kept.id && KeepsRecord(frame, before, r)
  {
    hide OmissionsFollow, AllAccounted, AllNoted, KeepsFact, KeepsLink, KeepsEntity, KeepsUnknown, Trimmed, Kept;
    var records := Kept(before.records, (r: Record) => KeepsRecord(frame, before, r));
    var i :| 0 <= i < |after.records| && after.records[i] == kept;
    var r := records[i];
    KeptHas(before.records, (r: Record) => KeepsRecord(frame, before, r));
    assert r in records && KeepsRecord(frame, before, r);
    KeptHas(before.facts, (f: Statement) => KeepsFact(frame, f));
    KeptHas(before.links, (l: Link) => KeepsLink(before, l));
  }

  /** What an omission may be about: the claim, and the members of the projected case. */
  lemma SurvivingExactly(frame: Frame, before: Case, after: Case, id: string)
    requires Projected(frame, before, after)
    ensures id in Surviving(frame, before) <==> id == frame.claim || Present(after, id)
  {
    hide Surviving, OmissionsFollow, AllAccounted, AllNoted, KeepsEntity, KeepsFact, KeepsLink, KeepsUnknown;
    hide KeepsRecord, Trimmed, Kept;
    SurvivingMeans(frame, before, id);
    RecordIds(frame, before, after, id);
    KeptHas(before.entities, (e: Entity) => KeepsEntity(frame, before, e));
    KeptHas(before.links, (l: Link) => KeepsLink(before, l));
    KeptHas(before.facts, (f: Statement) => KeepsFact(frame, f));
    KeptHas(before.unknowns, (u: Unknown) => KeepsUnknown(frame, before, u));
  }

  lemma SurvivingMeans(frame: Frame, c: Case, id: string)
    ensures id in Surviving(frame, c)
            <==> || id == frame.claim
                 || (exists e <- c.entities :: KeepsEntity(frame, c, e) && e.id == id)
                 || (exists l <- c.links :: KeepsLink(c, l) && l.id == id)
                 || (c.paths != [] && c.paths[0].id == id)
                 || (exists f <- c.facts :: KeepsFact(frame, f) && f.id == id)
                 || (exists u <- c.unknowns :: KeepsUnknown(frame, c, u) && u.id == id)
                 || (exists r <- c.records :: KeepsRecord(frame, c, r) && r.id == id)
  {
    hide KeepsEntity, KeepsFact, KeepsLink, KeepsUnknown, KeepsRecord;
  }

  lemma RecordIds(frame: Frame, before: Case, after: Case, id: string)
    requires Projected(frame, before, after)
    ensures (exists r <- after.records :: r.id == id)
            <==> exists r <- before.records :: KeepsRecord(frame, before, r) && r.id == id
  {
    hide OmissionsFollow, AllAccounted, AllNoted, KeepsEntity, KeepsFact, KeepsLink, KeepsUnknown, Referenced;
    if r :| r in before.records && KeepsRecord(frame, before, r) && r.id == id {
      RecordStays(frame, before, after, r);
    }
    if r :| r in after.records && r.id == id {
      RecordNamed(frame, before, after, r);
    }
  }

  /** No omission of the projected case is about something that is gone, and none still about something is lost. */
  lemma OmissionsKept(frame: Frame, before: Case, after: Case)
    requires Projected(frame, before, after)
    ensures forall o <- after.omissions :: o.subject == frame.claim || Present(after, o.subject)
    ensures forall o <- before.omissions ::
              o in after.omissions <==> o.subject == frame.claim || Present(after, o.subject)
  {
    hide Surviving, AllAccounted, AllNoted, Present, Kept, AllWithheld, LevelNotes, IsPremiseNote, KeepsRecord, Sort;
    forall o: Omission
      ensures o.subject in Surviving(frame, before) <==> o.subject == frame.claim || Present(after, o.subject)
    {
      SurvivingExactly(frame, before, after, o.subject);
    }
    KeptHas(before.omissions, (o: Omission) => KeepsOmission(frame, before, o));
    var kept := Kept(before.omissions, (o: Omission) => KeepsOmission(frame, before, o));
    assert kept <= after.omissions;
    assert forall o <- kept :: o in after.omissions;
  }

  /** The omission says of a record which of its inputs no fact that stays carries. */
  predicate SaysPremise(frame: Frame, before: Case, after: Case, o: Omission) {
    && o.kind == "provenance_premise"
    && exists r <- before.records, input <- r.inputs ::
         && o.subject == r.id && (forall f <- after.facts :: f.id != input)
         && o.reason == "l0 withholds input " + frame.inputText(input) + " of " + r.id
  }

  /** The omission says of the claim which member is withheld. */
  predicate SaysWithheld(frame: Frame, withheld: seq<string>, o: Omission) {
    && o.kind == "level_projection" && o.subject == frame.claim
    && exists m <- withheld :: o.reason == "the member " + m + " is withheld at l0; a higher level can recover it"
  }

  /** Every omission that is new says which input of a record or which member of the case is withheld. */
  lemma NotesSay(frame: Frame, before: Case, after: Case, o: Omission)
    requires Projected(frame, before, after) && o in after.omissions && o !in before.omissions
    ensures SaysPremise(frame, before, after, o) || SaysWithheld(frame, AllWithheld(frame, before), o)
  {
    hide Surviving, AllAccounted, AllNoted, AllWithheld, KeepsRecord, Sort, SaysPremise, SaysWithheld, IsPremiseNote;
    hide LevelNotes, KeepsOmission, KeepsEntity, KeepsLink, KeepsFact, KeepsUnknown, Trimmed, RetainedFacts, Kept;
    var kept := Kept(before.omissions, (x: Omission) => KeepsOmission(frame, before, x));
    var records := Kept(before.records, (r: Record) => KeepsRecord(frame, before, r));
    var withheld := Sort(AllWithheld(frame, before), LexLeq);
    var notes: seq<Omission> :|
      && kept + notes <= after.omissions
      && LevelNotes(frame, withheld, after.omissions, |kept + notes|)
      && forall x <- notes :: IsPremiseNote(frame, records, RetainedFacts(frame, before), x);
    if o in kept {
      KeptHas(before.omissions, (x: Omission) => KeepsOmission(frame, before, x));
    } else if o in notes {
      KeptHas(before.records, (r: Record) => KeepsRecord(frame, before, r));
      PremiseSays(frame, before, after, records, o);
    } else {
      LevelSays(frame, withheld, after.omissions, kept + notes, o);
      StillWithheld(frame, withheld, AllWithheld(frame, before), o);
    }
  }

  lemma PremiseSays(frame: Frame, before: Case, after: Case, records: seq<Record>, o: Omission)
    requires IsPremiseNote(frame, records, RetainedFacts(frame, before), o)
    requires forall r <- records :: r in before.records
    requires after.facts == Kept(before.facts, (f: Statement) => KeepsFact(frame, f))
    ensures SaysPremise(frame, before, after, o)
  {
    hide KeepsFact;
  }

  lemma LevelSays(frame: Frame, members: seq<string>, omissions: seq<Omission>, start: seq<Omission>, o: Omission)
    requires start <= omissions && LevelNotes(frame, members, omissions, |start|) && o in omissions && o !in start
    ensures SaysWithheld(frame, members, o)
  {
    var i :| 0 <= i < |omissions| && omissions[i] == o;
    var k := i - |start|;
    assert omissions[|start| + k] == LevelOmission(frame, omissions[|start| + k].id, members[k]);
    assert members[k] in members;
  }

  lemma StillWithheld(frame: Frame, a: seq<string>, b: seq<string>, o: Omission)
    requires multiset(a) == multiset(b) && SaysWithheld(frame, a, o)
    ensures SaysWithheld(frame, b, o)
  {
    SameElements(a, b);
  }

  lemma KeptHas<T>(s: seq<T>, keep: T -> bool)
    ensures forall x :: x in Kept(s, keep) <==> x in s && keep(x)
  {}
}
