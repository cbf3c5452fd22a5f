/** The columns `get_edges` adds to the metabolite-to-gene links: the
    subsystem of the reaction, the compartment of the metabolite, the
    transport it takes part in and the direction of that transport. */
module Annotation {
  import opened Frames
  import opened Reactions

  // ---------------------------------------------------------- compartment

  /** `x.split('[')[1]` followed by `.split(']')[0]`: the compartment tag of
      a metabolite id such as `glc_D[c]`; missing when the id holds no `[`,
      where the first split raises IndexError. */
  function Compartment(metabolite: string): (c: Option<string>)
    ensures c.None? <==> '[' !in metabolite
    ensures c.Some? ==> '[' !in c.value && ']' !in c.value
  {
    match SplitSecond(metabolite, '[')
    case None => None
    case Some(part) => Some(SplitHead(part, ']'))
  }

  /** The compartment of a tagged id is its tag. */
  lemma CompartmentOfTag(name: string, tag: string)
    requires '[' !in name && '[' !in tag && ']' !in tag
    ensures Compartment(name + "[" + tag + "]") == Some(tag)
  {
    var rest := tag + "]";
    assert name + "[" + tag + "]" == name + ['['] + rest;
    SplitOfJoin(name, '[', rest);
    assert '[' !in rest;
    SplitOfJoin(tag, ']', "");
    assert tag + [']'] + "" == rest;
  }

  // ------------------------------------------------------------ transport

  /** One `.loc[(compartment == c) & (subsystem == s), 'transport'] = t`. */
  datatype TransportRule = TransportRule(compartment: string, subsystem: string, transport: string)

  /** The default of the `transport` and `transport_direction` columns. */
  const Unknown: string := "unknown"

  /** Lines 112-125, in the order they run. */
  const TransportRules: seq<TransportRule> := [
    TransportRule("c", "Transport, extracellular", "c->e"),
    TransportRule("e", "Transport, extracellular", "e->c"),
    TransportRule("m", "Transport, mitochondrial", "m->c"),
    TransportRule("c", "Transport, mitochondrial", "c->m"),
    TransportRule("r", "Transport, endoplasmic reticular", "r->c"),
    TransportRule("c", "Transport, endoplasmic reticular", "c->r"),
    TransportRule("l", "Transport, lysosomal", "l->c"),
    TransportRule("c", "Transport, lysosomal", "c->l"),
    TransportRule("x", "Transport, peroxisomal", "x->c"),
    TransportRule("c", "Transport, peroxisomal", "c->x"),
    TransportRule("g", "Transport, golgi apparatus", "g->c"),
    TransportRule("c", "Transport, golgi apparatus", "c->g"),
    TransportRule("n", "Transport, nuclear", "n->c"),
    TransportRule("c", "Transport, nuclear", "c->n")
  ]

  /** The row's mask for a rule; a missing subsystem equals nothing. */
  predicate Applies(rule: TransportRule, compartment: string, subsystem: Option<string>)
  {
    compartment == rule.compartment && subsystem == Some(rule.subsystem)
  }

  /** The `transport` cell after the rules have run in order over the
      default: the last rule that applies wins. */
  function TransportOf(rules: seq<TransportRule>, compartment: string, subsystem: Option<string>): string
    decreases |rules|
  {
    if rules == [] then Unknown
    else if Applies(rules[|rules| - 1], compartment, subsystem) then rules[|rules| - 1].transport
    else TransportOf(rules[..|rules| - 1], compartment, subsystem)
  }

  lemma {:induction false} LastApplyingRule(rules: seq<TransportRule>, k: nat, compartment: string, subsystem: Option<string>)
    requires k < |rules| && Applies(rules[k], compartment, subsystem)
    requires forall j :: k < j < |rules| ==> !Applies(rules[j], compartment, subsystem)
    ensures TransportOf(rules, compartment, subsystem) == rules[k].transport
    decreases |rules|
  {
    if k < |rules| - 1 {
      LastApplyingRule(rules[..|rules| - 1], k, compartment, subsystem);
    }
  }

  lemma {:induction false} NoApplyingRule(rules: seq<TransportRule>, compartment: string, subsystem: Option<string>)
    requires forall j :: 0 <= j < |rules| ==> rules[j].transport != Unknown
    ensures TransportOf(rules, compartment, subsystem) == Unknown <==>
      forall j :: 0 <= j < |rules| ==> !Applies(rules[j], compartment, subsystem)
    decreases |rules|
  {
    if rules != [] {
      var init := rules[..|rules| - 1];
      NoApplyingRule(init, compartment, subsystem);
      assert forall j :: 0 <= j < |init| ==> init[j] == rules[j];
    }
  }

  /** No two rules share a (compartment, subsystem) pair, and none sets the
      default. */
  lemma RulesExclusive()
    ensures forall i, j :: 0 <= i < j < |TransportRules| ==>
      TransportRules[i].compartment != TransportRules[j].compartment || TransportRules[i].subsystem != TransportRules[j].subsystem
    ensures forall j :: 0 <= j < |TransportRules| ==> TransportRules[j].transport != Unknown
  {
  }

  /** `transport` is `unknown` exactly when none of the fourteen pairs is
      the row's, and otherwise it is the transport of the one pair that is. */
  lemma TransportTable(compartment: string, subsystem: Option<string>)
    ensures TransportOf(TransportRules, compartment, subsystem) == Unknown <==>
      forall k :: 0 <= k < |TransportRules| ==> !Applies(TransportRules[k], compartment, subsystem)
    ensures forall k :: 0 <= k < |TransportRules| && Applies(TransportRules[k], compartment, subsystem) ==>
      TransportOf(TransportRules, compartment, subsystem) == TransportRules[k].transport
  {
    RulesExclusive();
    NoApplyingRule(TransportRules, compartment, subsystem);
    forall k | 0 <= k < |TransportRules| && Applies(TransportRules[k], compartment, subsystem)
      ensures TransportOf(TransportRules, compartment, subsystem) == TransportRules[k].transport
    {
      LastApplyingRule(TransportRules, k, compartment, subsystem);
    }
  }

  // -------------------------------------------------- transport direction

  datatype TransportDirection = In | Out | UndeterminedDirection

  /** The `transport_direction` cell, read in priority order: `c->e` is
      outward, `e->c` inward, any other transport that starts from the
      cytosol inward, and any other row of a transport subsystem outward. */
  function TransportDirectionOf(subsystem: string, transport: string): TransportDirection
  {
    if transport == "c->e" then Out
    else if transport == "e->c" then In
    else if StartsWith(transport, "c") then In
    else if Contains(subsystem, "Transport") then Out
    else UndeterminedDirection
  }

  /** Every subsystem the rules name is a transport subsystem, and the
      direction a rule's transport gets is inward exactly for the rows leaving
      the extracellular space or leaving the cytosol for an organelle. */
  lemma RuleDirection(k: nat)
    requires k < |TransportRules|
    ensures Contains(TransportRules[k].subsystem, "Transport")
    ensures TransportDirectionOf(TransportRules[k].subsystem, TransportRules[k].transport) == In <==>
      TransportRules[k].compartment == "e" ||
      (TransportRules[k].compartment == "c" && TransportRules[k].subsystem != "Transport, extracellular")
  {
    var rule := TransportRules[k];
    assert rule.subsystem[..9] == "Transport";
  }

  /** What the table means for a row with a known subsystem: a listed pair
      is always given a direction, inward exactly for metabolites leaving the
      extracellular space or leaving the cytosol for an organelle; an
      unlisted pair is outward when its subsystem is a transport one and
      undetermined otherwise. */
  lemma DirectionTable(compartment: string, subsystem: string)
    ensures var t := TransportOf(TransportRules, compartment, Some(subsystem));
      t != Unknown ==> TransportDirectionOf(subsystem, t) != UndeterminedDirection
    ensures var t := TransportOf(TransportRules, compartment, Some(subsystem));
      t != Unknown ==> (TransportDirectionOf(subsystem, t) == In <==>
        compartment == "e" || (compartment == "c" && subsystem != "Transport, extracellular"))
    ensures var t := TransportOf(TransportRules, compartment, Some(subsystem));
      t == Unknown ==> TransportDirectionOf(subsystem, t) == if Contains(subsystem, "Transport") then Out else UndeterminedDirection
  {
    var t := TransportOf(TransportRules, compartment, Some(subsystem));
    TransportTable(compartment, Some(subsystem));
    if t != Unknown {
      var k :| 0 <= k < |TransportRules| && Applies(TransportRules[k], compartment, Some(subsystem));
      assert t == TransportRules[k].transport;
      RuleDirection(k);
    } else {
      assert Unknown[..1] != "c" by { assert Unknown[..1][0] == 'u'; }
    }
  }

  // ----------------------------------------------------------- annotation

  /** `dict(zip(reaction_ids, subsystem))`. */
  function SubsystemDict(reactionIds: seq<string>, subsystems: seq<string>): map<string, string>
  {
    ZipDict(Zip(reactionIds, subsystems))
  }

  /** A link with its added columns. */
  datatype AnnotatedLink = AnnotatedLink(link: Link, subsystem: string, compartment: string,
                                         transport: string, transportDirection: TransportDirection)

  /** The annotation of one link; missing when its reaction has no subsystem
      or its metabolite id no compartment tag. */
  function Annotate(l: Link, subsystems: map<string, string>): (r: Option<AnnotatedLink>)
    ensures r.None? <==> l.reaction !in subsystems || '[' !in l.metabolite
  {
    if l.reaction !in subsystems then None
    else match Compartment(l.metabolite)
      case None => None
      case Some(c) =>
        var s := subsystems[l.reaction];
        var t := TransportOf(TransportRules, c, Some(s));
        Some(AnnotatedLink(l, s, c, t, TransportDirectionOf(s, t)))
  }

  /** Lines 105-131 on the whole table: an error as soon as one link cannot
      be annotated. */
  function AnnotateAll(links: seq<Link>, subsystems: map<string, string>): (r: Option<seq<AnnotatedLink>>)
    ensures r.None? <==> exists i :: 0 <= i < |links| && Annotate(links[i], subsystems).None?
    ensures r.Some? ==> |r.value| == |links|
    ensures r.Some? ==> forall i :: 0 <= i < |links| ==> Some(r.value[i]) == Annotate(links[i], subsystems)
  {
    if forall i :: 0 <= i < |links| ==> Annotate(links[i], subsystems).Some? then
      Some(seq(|links|, i requires 0 <= i < |links| => Annotate(links[i], subsystems).value))
    else None
  }

  lemma AnnotateRow(l: Link, subsystems: map<string, string>, c: string, t: string, d: TransportDirection)
    requires l.reaction in subsystems && Compartment(l.metabolite) == Some(c)
    requires t == TransportOf(TransportRules, c, Some(subsystems[l.reaction]))
    requires d == TransportDirectionOf(subsystems[l.reaction], t)
    ensures Annotate(l, subsystems) == Some(AnnotatedLink(l, subsystems[l.reaction], c, t, d))
  {
  }

  lemma AnnotateAllRows(links: seq<Link>, subsystems: map<string, string>, xs: seq<AnnotatedLink>)
    requires |xs| == |links|
    requires forall i :: 0 <= i < |links| ==> Annotate(links[i], subsystems) == Some(xs[i])
    ensures AnnotateAll(links, subsystems) == Some(xs)
  {
    var r := AnnotateAll(links, subsystems);
    assert r.Some?;
    assert |r.value| == |xs|;
    forall i | 0 <= i < |links| ensures r.value[i] == xs[i] {
      assert Some(r.value[i]) == Annotate(links[i], subsystems);
    }
    assert r.value == xs;
  }

  /** Lines 107-108: the compartment column, or the IndexError of the first
      id without a `[`. */
  method CompartmentColumn(ids: seq<string>) returns (r: Option<seq<string>>)
    ensures r.None? <==> exists i :: 0 <= i < |ids| && '[' !in ids[i]
    ensures r.Some? ==> |r.value| == |ids|
    ensures r.Some? ==> forall i :: 0 <= i < |ids| ==> Some(r.value[i]) == Compartment(ids[i])
  {
    var parts: seq<string> := [];
    for i := 0 to |ids|
      invariant |parts| == i
      invariant forall k :: 0 <= k < i ==> Some(parts[k]) == SplitSecond(ids[k], '[')
    {
      var part := SplitSecond(ids[i], '[');
      if part.None? {
        return None;
      }
      parts := parts + [part.value];
    }
    r := Some(seq(|ids|, i requires 0 <= i < |ids| => SplitHead(parts[i], ']')));
  }

  /** Lines 109-125: the default, then the fourteen masked assignments in
      turn. */
  method TransportColumn(compartment: seq<string>, subsystem: seq<Option<string>>) returns (transport: seq<string>)
    requires |compartment| == |subsystem|
    ensures |transport| == |compartment|
    ensures forall i :: 0 <= i < |compartment| ==>
      transport[i] == TransportOf(TransportRules, compartment[i], subsystem[i])
  {
    var n := |compartment|;
    transport := seq(n, i => Unknown);
    for k := 0 to |TransportRules|
      invariant |transport| == n
      invariant forall i :: 0 <= i < n ==> transport[i] == TransportOf(TransportRules[..k], compartment[i], subsystem[i])
    {
      var rule := TransportRules[k];
      var mask := seq(n, i requires 0 <= i < n => compartment[i] == rule.compartment && subsystem[i] == Some(rule.subsystem));
      transport := LocAssign(transport, mask, rule.transport);
      assert TransportRules[..k + 1][..k] == TransportRules[..k];
    }
    assert TransportRules[..|TransportRules|] == TransportRules;
  }

  /** Lines 127-131: the default, then four masked assignments, each
      overriding the ones before; together they give the priority-order
      reading of `TransportDirectionOf`. */
  method DirectionColumn(subsystem: seq<string>, transport: seq<string>) returns (direction: seq<TransportDirection>)
    requires |subsystem| == |transport|
    ensures |direction| == |transport|
    ensures forall i :: 0 <= i < |transport| ==> direction[i] == TransportDirectionOf(subsystem[i], transport[i])
  {
    var n := |transport|;
    direction := seq(n, i => UndeterminedDirection);
    direction := LocAssign(direction, seq(n, i requires 0 <= i < n => Contains(subsystem[i], "Transport")), Out);
    direction := LocAssign(direction, seq(n, i requires 0 <= i < n => StartsWith(transport[i], "c")), In);
    direction := LocAssign(direction, seq(n, i requires 0 <= i < n => transport[i] == "c->e"), Out);
    direction := LocAssign(direction, seq(n, i requires 0 <= i < n => transport[i] == "e->c"), In);
  }

  /** Lines 105-131: the subsystem column looked up from the reaction, the
      compartment column, the transport column and the direction column; an
      error when an id has no compartment tag or a reaction no subsystem (the
      `str.contains` mask at line 128 then holds a missing value, which pandas
      refuses). */
  method AnnotateLinks(links: seq<Link>, ssDict: map<string, string>) returns (r: Option<seq<AnnotatedLink>>)
    ensures r == AnnotateAll(links, ssDict)
  {
    var n := |links|;
    var subsystem := seq(n, i requires 0 <= i < n =>
      if links[i].reaction in ssDict then Some(ssDict[links[i].reaction]) else None);
    var ids := seq(n, i requires 0 <= i < n => links[i].metabolite);
    var compartment := CompartmentColumn(ids);
    if compartment.None? {
      MissingCompartment(links, ssDict, ids);
      return None;
    }
    var cs := compartment.value;
    var transport := TransportColumn(cs, subsystem);
    if exists i :: 0 <= i < n && subsystem[i].None? {
      MissingSubsystem(links, ssDict, subsystem);
      return None;
    }
    var ss := seq(n, i requires 0 <= i < n => subsystem[i].value);
    var direction := DirectionColumn(ss, transport);
    var rows := seq(n, i requires 0 <= i < n => AnnotatedLink(links[i], ss[i], cs[i], transport[i], direction[i]));
    AnnotatedColumns(links, ssDict, subsystem, ss, ids, cs, transport, direction, rows);
    r := Some(rows);
  }

  lemma MissingCompartment(links: seq<Link>, ssDict: map<string, string>, ids: seq<string>)
    requires |ids| == |links| && forall i :: 0 <= i < |links| ==> ids[i] == links[i].metabolite
    requires exists i :: 0 <= i < |ids| && '[' !in ids[i]
    ensures AnnotateAll(links, ssDict).None?
  {
    var i :| 0 <= i < |ids| && '[' !in ids[i];
    assert Annotate(links[i], ssDict).None?;
  }

  lemma MissingSubsystem(links: seq<Link>, ssDict: map<string, string>, subsystem: seq<Option<string>>)
    requires |subsystem| == |links|
    requires forall i :: 0 <= i < |links| ==>
      subsystem[i] == if links[i].reaction in ssDict then Some(ssDict[links[i].reaction]) else None
    requires exists i :: 0 <= i < |links| && subsystem[i].None?
    ensures AnnotateAll(links, ssDict).None?
  {
    var i :| 0 <= i < |links| && subsystem[i].None?;
    assert Annotate(links[i], ssDict).None?;
  }

  /** Columns that agree row by row with the per-link annotation assemble
      into the annotated table. */
  lemma AnnotatedColumns(links: seq<Link>, ssDict: map<string, string>, subsystem: seq<Option<string>>, ss: seq<string>,
                         ids: seq<string>, compartment: seq<string>, transport: seq<string>,
                         direction: seq<TransportDirection>, rows: seq<AnnotatedLink>)
    requires |subsystem| == |ss| == |ids| == |compartment| == |transport| == |direction| == |rows| == |links|
    requires forall i :: 0 <= i < |links| ==>
      subsystem[i] == if links[i].reaction in ssDict then Some(ssDict[links[i].reaction]) else None
    requires forall i :: 0 <= i < |links| ==> subsystem[i].Some? && ss[i] == subsystem[i].value
    requires forall i :: 0 <= i < |links| ==> ids[i] == links[i].metabolite
    requires forall i :: 0 <= i < |links| ==> Some(compartment[i]) == Compartment(ids[i])
    requires forall i :: 0 <= i < |links| ==> transport[i] == TransportOf(TransportRules, compartment[i], subsystem[i])
    requires forall i :: 0 <= i < |links| ==> direction[i] == TransportDirectionOf(ss[i], transport[i])
    requires forall i :: 0 <= i < |links| ==>
      rows[i] == AnnotatedLink(links[i], ss[i], compartment[i], transport[i], direction[i])
    ensures AnnotateAll(links, ssDict) == Some(rows)
  {
    forall i | 0 <= i < |links| ensures Annotate(links[i], ssDict) == Some(rows[i]) {
      assert subsystem[i].Some?;
      AnnotateRow(links[i], ssDict, compartment[i], transport[i], direction[i]);
    }
    AnnotateAllRows(links, ssDict, rows);
  }
}
