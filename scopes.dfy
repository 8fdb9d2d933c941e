/**
 * The lexical scope model. The analyzer's Scope class is not part of this
 * model; what follows is the smallest concrete scope the traversal needs,
 * written so that the traversal's own behaviour can be stated against it.
 *
 * A scope maps variable names to bindings. A binding either owns a
 * variable record or, after a by-reference closure capture, aliases the
 * record of the same-named variable in a scope further down the stack
 * (`Alias(depth)`): reads and writes through either side reach one record.
 * Operations therefore work on the whole stack and an index into it.
 */
module Scopes {
  import opened Common
  import opened PhpTypes

  /** Attribute flags of a variable record. */
  datatype Attr = TouchedFunctionParam | InferredNullability(n: Nullability)

  datatype VarRecord = VarRecord(
    typ: string,
    nullability: Nullability,
    used: bool,
    writtenAt: Option<int>,
    typeLine: int,
    attrs: set<Attr>)

  datatype Binding = Own(rec: VarRecord) | Alias(depth: nat)

  /** `previous` is the sibling branch an `elseif`/`else` scope merges back on exit. */
  datatype Scope = Scope(vars: map<string, Binding>, isStatic: bool, isGlobal: bool, previous: Option<Scope>)

  type Stack = seq<Scope>

  /** What a scope's variables look like to a reader: every name resolved to its record. */
  type VarView = map<string, VarRecord>

  function NewScope(isStatic: bool, isGlobal: bool): Scope {
    Scope(map[], isStatic, isGlobal, None)
  }

  function FreshRecord(t: string, line: int): VarRecord {
    VarRecord(t, Unknown, false, None, line, {})
  }

  /** Every binding of the scope owns its record. */
  predicate AllOwn(s: Scope) {
    forall n :: n in s.vars ==> s.vars[n].Own?
  }

  /** The index of the scope that owns the record `name` denotes in scope `i`, if any. */
  function Home(st: Stack, i: nat, name: string): (h: Option<nat>)
    requires i < |st|
    ensures h.Some? ==> h.value <= i && name in st[h.value].vars && st[h.value].vars[name].Own?
    decreases i
  {
    if name !in st[i].vars then None
    else match st[i].vars[name]
      case Own(_) => Some(i)
      case Alias(d) => if d < i then Home(st, d, name) else None
  }

  function Lookup(st: Stack, i: nat, name: string): Option<VarRecord>
    requires i < |st|
  {
    match Home(st, i, name)
    case Some(h) => Some(st[h].vars[name].rec)
    case None => None
  }

  /** `getVarType`: UNDEFINED for a variable the scope does not know. */
  function GetVarType(st: Stack, i: nat, name: string): string
    requires i < |st|
  {
    match Lookup(st, i, name)
    case Some(r) => r.typ
    case None => UNDEFINED
  }

  /** `getVarNullability`. */
  function GetVarNullability(st: Stack, i: nat, name: string): Nullability
    requires i < |st|
  {
    match Lookup(st, i, name)
    case Some(r) => r.nullability
    case None => Unknown
  }

  function ViewAt(st: Stack, i: nat): (v: VarView)
    requires i < |st|
    ensures forall n :: n in v <==> Lookup(st, i, n).Some?
    ensures forall n :: n in v ==> Some(v[n]) == Lookup(st, i, n)
  {
    map n | n in st[i].vars && Lookup(st, i, n).Some? :: Lookup(st, i, n).value
  }

  /** Store `r` as the record owned by scope `h` under `name`. */
  function Put(st: Stack, h: nat, name: string, r: VarRecord): (st': Stack)
    requires h < |st|
    ensures |st'| == |st|
  {
    st[h := st[h].(vars := st[h].vars[name := Own(r)])]
  }

  /** The in-place changes the analyzer makes to an existing variable record. */
  datatype Change = MarkNull(nullable: bool) | MarkUsed | MarkWritten(line: int) | AddAttrs(attrs: set<Attr>) | RetypeOnly(t: string)

  function Apply(c: Change, r: VarRecord): VarRecord {
    match c
    case MarkNull(nullable) => r.(nullability := if nullable then Possible else Impossible)
    case MarkUsed => r.(used := true)
    case MarkWritten(line) => r.(writtenAt := Some(line))
    case AddAttrs(a) => r.(attrs := r.attrs + a)
    case RetypeOnly(t) => r.(typ := t)
  }

  /** Change the record `name` denotes in scope `i`; nothing happens for an unknown name. */
  function Update(st: Stack, i: nat, name: string, c: Change): (st': Stack)
    requires i < |st|
    ensures |st'| == |st|
  {
    match Home(st, i, name)
    case Some(h) => Put(st, h, name, Apply(c, st[h].vars[name].rec))
    case None => st
  }

  /** `setVarType`: creates the variable in scope `i` when it is unknown. */
  function SetVarType(st: Stack, i: nat, name: string, t: string, line: int): (st': Stack)
    requires i < |st|
    ensures |st'| == |st|
  {
    match Home(st, i, name)
    case Some(h) => Put(st, h, name, st[h].vars[name].rec.(typ := t, typeLine := line))
    case None => Put(st, i, name, FreshRecord(t, line))
  }

  /** `setVarNull($name, $nullable)`. */
  function SetVarNull(st: Stack, i: nat, name: string, nullable: bool): (st': Stack)
    requires i < |st|
    ensures |st'| == |st|
  {
    Update(st, i, name, MarkNull(nullable))
  }

  /** `setVarUsed`. */
  function SetVarUsed(st: Stack, i: nat, name: string): (st': Stack)
    requires i < |st|
    ensures |st'| == |st|
  {
    Update(st, i, name, MarkUsed)
  }

  /** `setVarWritten`. */
  function SetVarWritten(st: Stack, i: nat, name: string, line: int): (st': Stack)
    requires i < |st|
    ensures |st'| == |st|
  {
    Update(st, i, name, MarkWritten(line))
  }

  /** `setVarAttributes`: the flags are added to those already set. */
  function SetVarAttributes(st: Stack, i: nat, name: string, attrs: set<Attr>): (st': Stack)
    requires i < |st|
    ensures |st'| == |st|
  {
    Update(st, i, name, AddAttrs(attrs))
  }

  /** `getVarObject($name)->type = $t`: the type changes, the recorded line does not. */
  function SetTypeInPlace(st: Stack, i: nat, name: string, t: string): (st': Stack)
    requires i < |st|
    ensures |st'| == |st|
  {
    Update(st, i, name, RetypeOnly(t))
  }

  /** `setVarReference`: scope `i` now shares the record of scope `depth`. */
  function SetVarReference(st: Stack, i: nat, name: string, depth: nat): (st': Stack)
    requires i < |st|
    ensures |st'| == |st|
  {
    st[i := st[i].(vars := st[i].vars[name := Alias(depth)])]
  }

  /** `markAllVarsUsed`, on the records the scope owns. */
  function MarkAllVarsUsed(s: Scope): Scope {
    s.(vars := map n | n in s.vars :: match s.vars[n]
                                      case Own(r) => Own(r.(used := true))
                                      case Alias(d) => Alias(d))
  }

  /**
   * `getScopeClone($previous)`: a copy of scope `i` that owns a copy of every
   * record it can see, so that changing the copy changes no other scope.
   */
  function GetScopeClone(st: Stack, i: nat, previous: Option<Scope>): (s: Scope)
    requires i < |st|
    ensures AllOwn(s) && s.isGlobal == st[i].isGlobal && s.previous == previous
    ensures forall n :: (n in s.vars <==> Lookup(st, i, n).Some?)
    ensures forall n :: n in s.vars ==> Some(s.vars[n].rec) == Lookup(st, i, n)
  {
    Scope(map n | n in st[i].vars && Lookup(st, i, n).Some? :: Own(Lookup(st, i, n).value),
          st[i].isStatic, st[i].isGlobal, previous)
  }

  function MorePermissive(a: Nullability, b: Nullability): Nullability {
    if a == Possible || b == Possible then Possible
    else if a == Unknown || b == Unknown then Unknown
    else Impossible
  }

  function LaterWrite(a: Option<int>, b: Option<int>): Option<int> {
    match (a, b)
    case (None, _) => b
    case (_, None) => a
    case (Some(x), Some(y)) => if x < y then b else a
  }

  /** The join of two records of one variable. */
  function Combine(a: VarRecord, b: VarRecord): VarRecord {
    VarRecord(if a.typ == b.typ then a.typ else MIXED_TYPE,
              MorePermissive(a.nullability, b.nullability),
              a.used || b.used,
              LaterWrite(a.writtenAt, b.writtenAt),
              a.typeLine,
              a.attrs + b.attrs)
  }

  /**
   * `merge($other)`: a variable both sides know gets the joined record, one
   * only `other` knows is copied in; bindings that alias another scope are
   * left as they are.
   */
  function Merge(target: Scope, other: VarView): Scope {
    target.(vars := map n | n in target.vars.Keys + other.Keys ::
      if n !in other then target.vars[n]
      else if n !in target.vars then Own(other[n])
      else match target.vars[n]
        case Own(r) => Own(Combine(r, other[n]))
        case Alias(d) => Alias(d))
  }

  function OwnedView(s: Scope): VarView {
    map n | n in s.vars && s.vars[n].Own? :: s.vars[n].rec
  }

  /** `mergePrevious`: fold the sibling branch this scope was opened after back in. */
  function MergePrevious(s: Scope): Scope {
    match s.previous
    case Some(p) => Merge(s, OwnedView(p))
    case None => s
  }

  /** `getUnusedVars`: each owned, written, never-read variable with its write line. */
  function GetUnusedVars(s: Scope): (m: map<string, int>)
    ensures forall n :: n in m <==> (n in s.vars && s.vars[n].Own? && !s.vars[n].rec.used
                                      && s.vars[n].rec.writtenAt.Some?)
  {
    map n | n in s.vars && s.vars[n].Own? && !s.vars[n].rec.used && s.vars[n].rec.writtenAt.Some?
      :: s.vars[n].rec.writtenAt.value
  }

  // ---------------------------------------------------------------------
  // Frame facts: what a write does and does not change.

  /** Writing one name leaves how every other name resolves untouched. */
  lemma {:induction false} HomeOtherName(st: Stack, h: nat, n: string, r: VarRecord, j: nat, m: string)
    requires h < |st| && j < |st| && m != n
    ensures Home(Put(st, h, n, r), j, m) == Home(st, j, m)
    decreases j
  {
    var st' := Put(st, h, n, r);
    assert st'[j].vars.Keys - {n} == st[j].vars.Keys - {n};
    if m in st[j].vars && st[j].vars[m].Alias? && st[j].vars[m].depth < j {
      HomeOtherName(st, h, n, r, st[j].vars[m].depth, m);
    }
  }

  /** Replacing an owned record by another keeps every resolution of that name. */
  lemma {:induction false} HomeSameName(st: Stack, h: nat, n: string, r: VarRecord, j: nat)
    requires h < |st| && j < |st| && n in st[h].vars && st[h].vars[n].Own?
    ensures Home(Put(st, h, n, r), j, n) == Home(st, j, n)
    decreases j
  {
    if n in st[j].vars && st[j].vars[n].Alias? && st[j].vars[n].depth < j {
      HomeSameName(st, h, n, r, st[j].vars[n].depth);
    }
  }

  lemma LookupOtherName(st: Stack, h: nat, n: string, r: VarRecord, j: nat, m: string)
    requires h < |st| && j < |st| && m != n
    ensures Lookup(Put(st, h, n, r), j, m) == Lookup(st, j, m)
  {
    HomeOtherName(st, h, n, r, j, m);
  }

  /** Update and SetVarType change only the record of the name they are given. */
  lemma UpdateOtherName(st: Stack, i: nat, n: string, c: Change, j: nat, m: string)
    requires i < |st| && j < |st| && m != n
    ensures Lookup(Update(st, i, n, c), j, m) == Lookup(st, j, m)
  {
    match Home(st, i, n)
    case Some(h) => LookupOtherName(st, h, n, Apply(c, st[h].vars[n].rec), j, m);
    case None =>
  }

  lemma SetVarTypeOtherName(st: Stack, i: nat, n: string, t: string, line: int, j: nat, m: string)
    requires i < |st| && j < |st| && m != n
    ensures Lookup(SetVarType(st, i, n, t, line), j, m) == Lookup(st, j, m)
  {
    match Home(st, i, n)
    case Some(h) => LookupOtherName(st, h, n, st[h].vars[n].rec.(typ := t, typeLine := line), j, m);
    case None => LookupOtherName(st, i, n, FreshRecord(t, line), j, m);
  }

  /** Update applies its change to the record the name denotes. */
  lemma UpdateSameName(st: Stack, i: nat, n: string, c: Change)
    requires i < |st|
    ensures Lookup(Update(st, i, n, c), i, n) ==
            match Lookup(st, i, n) case Some(r) => Some(Apply(c, r)) case None => None
  {
    match Home(st, i, n)
    case Some(h) => HomeSameName(st, h, n, Apply(c, st[h].vars[n].rec), i);
    case None =>
  }

  /** After SetVarType the name has the new type, and keeps its nullability when it was known. */
  lemma SetVarTypeSameName(st: Stack, i: nat, n: string, t: string, line: int)
    requires i < |st|
    ensures Lookup(SetVarType(st, i, n, t, line), i, n).Some?
    ensures GetVarType(SetVarType(st, i, n, t, line), i, n) == t
    ensures GetVarNullability(SetVarType(st, i, n, t, line), i, n) ==
            if Lookup(st, i, n).Some? then GetVarNullability(st, i, n) else Unknown
  {
    match Home(st, i, n)
    case Some(h) => HomeSameName(st, h, n, st[h].vars[n].rec.(typ := t, typeLine := line), i);
    case None =>
  }

  /** Merging a view into a scope that owns all its bindings and lacks `m`: `m` then reads as the view has it. */
  lemma MergeAddsAbsent(st: Stack, i: nat, v: VarView, m: string)
    requires i < |st| && AllOwn(st[i]) && m !in st[i].vars
    ensures AllOwn(Merge(st[i], v))
    ensures Lookup(st[i := Merge(st[i], v)], i, m) == if m in v then Some(v[m]) else None
  {
    var s := Merge(st[i], v);
    assert AllOwn(s);
    assert st[i := s][i] == s;
  }

  /** How a name resolves in scope `k` depends only on the scopes at or below `k`. */
  lemma {:induction false} HomeBelow(st: Stack, st': Stack, k: nat, n: string)
    requires k < |st| && k < |st'| && st[..k + 1] == st'[..k + 1]
    ensures Home(st, k, n) == Home(st', k, n)
    decreases k
  {
    assert st[k] == st[..k + 1][k] == st'[..k + 1][k] == st'[k];
    if n in st[k].vars && st[k].vars[n].Alias? && st[k].vars[n].depth < k {
      var d := st[k].vars[n].depth;
      assert st[..d + 1] == st[..k + 1][..d + 1] && st'[..d + 1] == st'[..k + 1][..d + 1];
      HomeBelow(st, st', d, n);
    }
  }

  /** After `setVarReference`, the name in scope `i` reads and writes the record it has in scope `d`. */
  lemma SetVarReferenceShares(st: Stack, i: nat, n: string, d: nat)
    requires d < i < |st|
    ensures Home(SetVarReference(st, i, n, d), i, n) == Home(st, d, n)
    ensures Lookup(SetVarReference(st, i, n, d), i, n) == Lookup(st, d, n)
  {
    var st' := SetVarReference(st, i, n, d);
    assert st[..d + 1] == st'[..d + 1];
    HomeBelow(st, st', d, n);
  }

  /** A scope that owns all its bindings keeps doing so when one record is stored into it. */
  lemma PutKeepsAllOwn(st: Stack, h: nat, n: string, r: VarRecord, j: nat)
    requires h < |st| && j < |st| && AllOwn(st[j])
    ensures AllOwn(Put(st, h, n, r)[j])
  {
    if j == h {
      var vs := st[h].vars[n := Own(r)];
      assert forall m :: m in vs ==> vs[m].Own? by {
        forall m | m in vs ensures vs[m].Own? {
          if m != n { assert m in st[h].vars; }
        }
      }
    }
  }

  /** Writes through a scope that owns all its bindings stay in that scope. */
  lemma WritesStayInScope(st: Stack, i: nat, n: string, c: Change, t: string, line: int)
    requires i < |st| && AllOwn(st[i])
    ensures forall j :: 0 <= j < |st| && j != i ==> Update(st, i, n, c)[j] == st[j] && SetVarType(st, i, n, t, line)[j] == st[j]
    ensures AllOwn(Update(st, i, n, c)[i]) && AllOwn(SetVarType(st, i, n, t, line)[i])
  {
    match Home(st, i, n)
    case Some(h) =>
      PutKeepsAllOwn(st, h, n, Apply(c, st[h].vars[n].rec), i);
      PutKeepsAllOwn(st, h, n, st[h].vars[n].rec.(typ := t, typeLine := line), i);
    case None =>
      PutKeepsAllOwn(st, i, n, FreshRecord(t, line), i);
  }
}
