/**
 * The canonical text that the policy fingerprint hashes: one line per role and
 * per binding, sorted.  Two policies have the same text exactly when they are
 * the same policy up to the order of rows and of permissions.
 */
module Fingerprint {
  import opened Common
  import Decision

  datatype RoleRow = RoleRow(org: string, id: string, name: string, permissions: seq<string>)

  datatype BindingKind = UserBinding | ServiceUserBinding

  datatype BindingRow = BindingRow(kind: BindingKind, org: string, subject: string, scope: string, role: string)

  datatype Policy = Policy(roles: seq<RoleRow>, bindings: seq<BindingRow>)

  const NUL := '\U{0}'
  const NEWLINE := '\n'
  const COMMA := ','

  // ------------------------------------------------------------------- text ordering

  predicate Le(a: string, b: string)
    decreases |a|
  {
    a == [] || (b != [] && (a[0] < b[0] || (a[0] == b[0] && Le(a[1..], b[1..]))))
  }

  /** a is b's beginning, or has the smaller character where they first differ. */
  lemma {:induction false} LeIsLexicographic(a: string, b: string)
    ensures Le(a, b) <==> a <= b || exists i :: FirstDifference(a, b, i) && a[i] < b[i]
    decreases |a|
  {
    if a != [] && b != [] {
      if a[0] == b[0] {
        LeIsLexicographic(a[1..], b[1..]);
        assert a == [a[0]] + a[1..] && b == [b[0]] + b[1..];
        if i :| FirstDifference(a[1..], b[1..], i) && a[1..][i] < b[1..][i] {
          assert a[1..][i] == a[i + 1] && b[1..][i] == b[i + 1];
          forall j | 1 <= j <= i ensures a[j] == b[j] {
            assert a[1..][j - 1] == b[1..][j - 1];
          }
          assert FirstDifference(a, b, i + 1);
        }
        if i :| FirstDifference(a, b, i) && a[i] < b[i] {
          assert FirstDifference(a[1..], b[1..], i - 1);
        }
      } else {
        assert FirstDifference(a, b, 0);
      }
    }
  }

  predicate FirstDifference(a: string, b: string, i: int) {
    0 <= i < |a| && i < |b| && a[i] != b[i] && forall j :: 0 <= j < i ==> a[j] == b[j]
  }

  lemma {:induction false} LeTotal(a: string, b: string)
    ensures Le(a, b) || Le(b, a)
    decreases |a|
  {
    if a != [] && b != [] && a[0] == b[0] { LeTotal(a[1..], b[1..]); }
  }

  lemma {:induction false} LeAntisymmetric(a: string, b: string)
    requires Le(a, b) && Le(b, a)
    ensures a == b
    decreases |a|
  {
    if a != [] && b != [] {
      LeAntisymmetric(a[1..], b[1..]);
      assert a == [a[0]] + a[1..] && b == [b[0]] + b[1..];
    }
  }

  lemma {:induction false} LeTransitive(a: string, b: string, c: string)
    requires Le(a, b) && Le(b, c)
    ensures Le(a, c)
    decreases |a|
  {
    if a != [] && a[0] == b[0] && b[0] == c[0] { LeTransitive(a[1..], b[1..], c[1..]); }
  }

  predicate Sorted(xs: seq<string>) {
    forall i, j :: 0 <= i < j < |xs| ==> Le(xs[i], xs[j])
  }

  function Insert(x: string, xs: seq<string>): seq<string>
    decreases |xs|
  {
    if xs == [] || Le(x, xs[0]) then [x] + xs else [xs[0]] + Insert(x, xs[1..])
  }

  function Sort(xs: seq<string>): seq<string> {
    if xs == [] then [] else Insert(xs[0], Sort(xs[1..]))
  }

  lemma {:induction false} InsertSorted(x: string, xs: seq<string>)
    requires Sorted(xs)
    ensures Sorted(Insert(x, xs)) && multiset(Insert(x, xs)) == multiset(xs) + multiset{x}
    decreases |xs|
  {
    if xs == [] {
    } else if Le(x, xs[0]) {
      var r := [x] + xs;
      assert r == Insert(x, xs);
      forall j | 1 <= j < |r| ensures Le(x, r[j]) {
        if j > 1 { LeTransitive(x, xs[0], xs[j - 1]); }
      }
    } else {
      InsertSorted(x, xs[1..]);
      var tail := Insert(x, xs[1..]);
      assert xs == [xs[0]] + xs[1..];
      LeTotal(x, xs[0]);
      forall j | 0 <= j < |tail| ensures Le(xs[0], tail[j]) {
        assert tail[j] in multiset(tail);
        if tail[j] != x {
          assert tail[j] in xs[1..];
        }
      }
      assert Insert(x, xs) == [xs[0]] + tail;
    }
  }

  lemma {:induction false} SortSorts(xs: seq<string>)
    ensures Sorted(Sort(xs)) && multiset(Sort(xs)) == multiset(xs)
    decreases |xs|
  {
    if xs != [] {
      SortSorts(xs[1..]);
      InsertSorted(xs[0], Sort(xs[1..]));
      assert xs == [xs[0]] + xs[1..];
    }
  }

  lemma SameHeads(xs: seq<string>, ys: seq<string>)
    requires Sorted(xs) && Sorted(ys) && multiset(xs) == multiset(ys) && xs != [] && ys != []
    ensures xs[0] == ys[0]
  {
    assert xs[0] in multiset(ys) && ys[0] in multiset(xs);
    var i :| 0 <= i < |ys| && ys[i] == xs[0];
    var j :| 0 <= j < |xs| && xs[j] == ys[0];
    LeReflexive(xs[0]);
    LeReflexive(ys[0]);
    LeAntisymmetric(xs[0], ys[0]);
  }

  lemma TailMultiset<T>(xs: seq<T>)
    requires xs != []
    ensures multiset(xs[1..]) == multiset(xs) - multiset{xs[0]}
  {
    assert xs == [xs[0]] + xs[1..];
  }

  lemma {:induction false} SortedUnique(xs: seq<string>, ys: seq<string>)
    requires Sorted(xs) && Sorted(ys) && multiset(xs) == multiset(ys)
    ensures xs == ys
    decreases |xs|
  {
    hide Le;
    assert |multiset(ys)| == |multiset(xs)|;
    if xs != [] {
      SameHeads(xs, ys);
      TailMultiset(xs);
      TailMultiset(ys);
      SortedUnique(xs[1..], ys[1..]);
      assert xs == [xs[0]] + xs[1..] && ys == [ys[0]] + ys[1..];
    }
  }

  lemma {:induction false} LeReflexive(a: string)
    ensures Le(a, a)
    decreases |a|
  {
    if a != [] { LeReflexive(a[1..]); }
  }

  /** Sorting forgets exactly the order. */
  lemma SortIffSameItems(xs: seq<string>, ys: seq<string>)
    ensures Sort(xs) == Sort(ys) <==> multiset(xs) == multiset(ys)
  {
    SortSorts(xs);
    SortSorts(ys);
    if multiset(xs) == multiset(ys) { SortedUnique(Sort(xs), Sort(ys)); }
  }

  // ------------------------------------------------------------------------- joining

  function Join(parts: seq<string>, sep: char): string {
    if parts == [] then "" else if |parts| == 1 then parts[0] else parts[0] + [sep] + Join(parts[1..], sep)
  }

  predicate Free(parts: seq<string>, sep: char) {
    forall i :: 0 <= i < |parts| ==> sep !in parts[i]
  }

  predicate NonEmpty(parts: seq<string>) {
    forall i :: 0 <= i < |parts| ==> parts[i] != ""
  }

  lemma JoinHead(parts: seq<string>, sep: char)
    requires parts != [] && Free(parts, sep)
    ensures sep in Join(parts, sep) <==> |parts| > 1
  {
    if |parts| > 1 {
      assert Join(parts, sep)[|parts[0]|] == sep;
    }
  }

  /** Parts without the separator can be read back, if no part is empty or the number of parts is known. */
  lemma {:induction false} JoinInjective(a: seq<string>, b: seq<string>, sep: char)
    requires Free(a, sep) && Free(b, sep) && Join(a, sep) == Join(b, sep)
    requires (NonEmpty(a) && NonEmpty(b)) || |a| == |b|
    ensures a == b
    decreases |a|
  {
    if a == [] || b == [] {
      assert a == b;
    } else {
      JoinHead(a, sep);
      JoinHead(b, sep);
      if |a| > 1 {
        Decision.SplitAtFirst(a[0], Join(a[1..], sep), b[0], Join(b[1..], sep), sep);
        JoinInjective(a[1..], b[1..], sep);
      }
      assert a == [a[0]] + a[1..] && b == [b[0]] + b[1..];
    }
  }

  // ----------------------------------------------------------------------- the lines

  /** A row with the order of its permissions forgotten. */
  datatype Entry = RoleEntry(org: string, id: string, name: string, permissions: seq<string>) | BindingEntry(binding: BindingRow)

  function KindText(kind: BindingKind): string {
    match kind
    case UserBinding => "user"
    case ServiceUserBinding => "service-user"
  }

  function EntryOf(r: RoleRow): Entry {
    RoleEntry(r.org, r.id, r.name, Sort(r.permissions))
  }

  function FieldsOf(e: Entry): seq<string> {
    match e
    case RoleEntry(org, id, name, permissions) => ["role", org, id, name, Join(permissions, COMMA)]
    case BindingEntry(b) => [KindText(b.kind), b.org, b.subject, b.scope, b.role]
  }

  function LineOf(e: Entry): string {
    Join(FieldsOf(e), NUL)
  }

  /** The five fields of a line, with a NUL between any two of them. */
  lemma LinesAreLaidOut(e: Entry)
    ensures e.RoleEntry? ==> LineOf(e) == "role" + "\U{0}" + e.org + "\U{0}" + e.id + "\U{0}" + e.name + "\U{0}" + Join(e.permissions, ',')
    ensures e.BindingEntry? ==>
      LineOf(e) == (if e.binding.kind == UserBinding then "user" else "service-user") + "\U{0}" + e.binding.org + "\U{0}"
                   + e.binding.subject + "\U{0}" + e.binding.scope + "\U{0}" + e.binding.role
  {
    var f := FieldsOf(e);
    FiveJoined(f[0], f[1], f[2], f[3], f[4], NUL);
    assert f == [f[0], f[1], f[2], f[3], f[4]];
  }

  lemma FiveJoined(a: string, b: string, c: string, d: string, e: string, sep: char)
    ensures Join([a, b, c, d, e], sep) == a + [sep] + b + [sep] + c + [sep] + d + [sep] + e
  {
    assert [a, b, c, d, e][1..] == [b, c, d, e] && [b, c, d, e][1..] == [c, d, e] && [c, d, e][1..] == [d, e] && [d, e][1..] == [e];
    assert Join([d, e], sep) == d + [sep] + e;
    assert Join([c, d, e], sep) == c + [sep] + Join([d, e], sep);
    assert Join([b, c, d, e], sep) == b + [sep] + Join([c, d, e], sep);
  }

  predicate ClearText(s: string) {
    NUL !in s && NEWLINE !in s
  }

  predicate ClearPermission(s: string) {
    s != "" && COMMA !in s && ClearText(s)
  }

  predicate ClearEntry(e: Entry) {
    match e
    case RoleEntry(org, id, name, permissions) =>
      ClearText(org) && ClearText(id) && ClearText(name) && forall i :: 0 <= i < |permissions| ==> ClearPermission(permissions[i])
    case BindingEntry(b) => ClearText(b.org) && ClearText(b.subject) && ClearText(b.scope) && ClearText(b.role)
  }

  lemma {:induction false} JoinKeepsFree(parts: seq<string>, sep: char, c: char)
    requires Free(parts, c) && c != sep
    ensures c !in Join(parts, sep)
    decreases |parts|
  {
    if |parts| > 1 { JoinKeepsFree(parts[1..], sep, c); }
  }

  lemma FieldsAreFree(e: Entry)
    requires ClearEntry(e)
    ensures Free(FieldsOf(e), NUL) && Free(FieldsOf(e), NEWLINE)
  {
    if e.RoleEntry? {
      JoinKeepsFree(e.permissions, COMMA, NUL);
      JoinKeepsFree(e.permissions, COMMA, NEWLINE);
    }
  }

  /** A line tells its row. */
  lemma LineInjective(e: Entry, f: Entry)
    requires ClearEntry(e) && ClearEntry(f) && LineOf(e) == LineOf(f)
    ensures e == f
  {
    hide Join;
    FieldsAreFree(e);
    FieldsAreFree(f);
    JoinInjective(FieldsOf(e), FieldsOf(f), NUL);
    var x, y := FieldsOf(e), FieldsOf(f);
    assert x[0] == y[0] && x[1] == y[1] && x[2] == y[2] && x[3] == y[3] && x[4] == y[4];
    KindsDiffer();
    if e.RoleEntry? && f.RoleEntry? {
      JoinInjective(e.permissions, f.permissions, COMMA);
    }
  }

  lemma KindsDiffer()
    ensures "role" != "user" && "role" != "service-user" && "user" != "service-user"
  {
    assert "role"[0] == 'r' && "user"[0] == 'u' && "service-user"[0] == 's';
  }

  lemma LinesAreClear(e: Entry)
    requires ClearEntry(e)
    ensures NEWLINE !in LineOf(e) && LineOf(e) != ""
  {
    FieldsAreFree(e);
    JoinKeepsFree(FieldsOf(e), NUL, NEWLINE);
    assert |FieldsOf(e)| == 5 && LineOf(e) == FieldsOf(e)[0] + [NUL] + Join(FieldsOf(e)[1..], NUL);
  }

  // ------------------------------------------------------------------------ the text

  function Lines(entries: seq<Entry>): seq<string> {
    if entries == [] then [] else Lines(entries[..|entries| - 1]) + [LineOf(entries[|entries| - 1])]
  }

  function RoleEntries(roles: seq<RoleRow>): seq<Entry> {
    if roles == [] then [] else RoleEntries(roles[..|roles| - 1]) + [EntryOf(roles[|roles| - 1])]
  }

  function BindingEntries(bindings: seq<BindingRow>): seq<Entry> {
    if bindings == [] then [] else BindingEntries(bindings[..|bindings| - 1]) + [BindingEntry(bindings[|bindings| - 1])]
  }

  function Entries(p: Policy): seq<Entry> {
    RoleEntries(p.roles) + BindingEntries(p.bindings)
  }

  function TextOf(entries: seq<Entry>): string {
    Join(Sort(Lines(entries)), NEWLINE)
  }

  predicate Clear(entries: seq<Entry>) {
    forall i :: 0 <= i < |entries| ==> ClearEntry(entries[i])
  }

  lemma {:induction false} LinesOf(entries: seq<Entry>)
    ensures |Lines(entries)| == |entries| && forall i :: 0 <= i < |entries| ==> Lines(entries)[i] == LineOf(entries[i])
    decreases |entries|
  {
    hide LineOf;
    if entries != [] { LinesOf(entries[..|entries| - 1]); }
  }

  lemma {:induction false} LinesAppend(a: seq<Entry>, b: seq<Entry>)
    ensures Lines(a + b) == Lines(a) + Lines(b)
    decreases |b|
  {
    hide LineOf;
    LinesOf(a + b);
    LinesOf(a);
    LinesOf(b);
  }

  lemma OneMoreLine(entries: seq<Entry>, e: Entry)
    ensures Lines(entries + [e]) == Lines(entries) + [LineOf(e)]
  {
    hide LineOf;
    assert (entries + [e])[..|entries|] == entries;
  }

  lemma OneMoreRole(roles: seq<RoleRow>, i: nat)
    requires i < |roles|
    ensures RoleEntries(roles[..i + 1]) == RoleEntries(roles[..i]) + [EntryOf(roles[i])]
  {
    hide EntryOf;
    assert roles[..i + 1][..i] == roles[..i];
  }

  lemma OneMoreBinding(bindings: seq<BindingRow>, i: nat)
    requires i < |bindings|
    ensures BindingEntries(bindings[..i + 1]) == BindingEntries(bindings[..i]) + [BindingEntry(bindings[i])]
  {
    assert bindings[..i + 1][..i] == bindings[..i];
  }

  method AppendCanonicalRoles(roles: seq<RoleRow>, canonical0: seq<string>) returns (canonical: seq<string>)
    ensures canonical == canonical0 + Lines(RoleEntries(roles))
  {
    hide LineOf, Sort, Lines, RoleEntries;
    canonical := canonical0;
    NoLines();
    assert roles[..0] == [];
    for i := 0 to |roles|
      invariant canonical == canonical0 + Lines(RoleEntries(roles[..i]))
    {
      var role := roles[i];
      var entry := RoleEntry(role.org, role.id, role.name, Sort(role.permissions));
      OneMoreRole(roles, i);
      OneMoreLine(RoleEntries(roles[..i]), entry);
      canonical := canonical + [LineOf(entry)];
    }
    assert roles[..|roles|] == roles;
  }

  method AppendCanonicalBindings(bindings: seq<BindingRow>, canonical0: seq<string>) returns (canonical: seq<string>)
    ensures canonical == canonical0 + Lines(BindingEntries(bindings))
  {
    hide LineOf, Lines, BindingEntries;
    canonical := canonical0;
    NoLines();
    assert bindings[..0] == [];
    for i := 0 to |bindings|
      invariant canonical == canonical0 + Lines(BindingEntries(bindings[..i]))
    {
      OneMoreBinding(bindings, i);
      OneMoreLine(BindingEntries(bindings[..i]), BindingEntry(bindings[i]));
      canonical := canonical + [LineOf(BindingEntry(bindings[i]))];
    }
    assert bindings[..|bindings|] == bindings;
  }

  lemma NoLines()
    ensures Lines(RoleEntries([])) == [] && Lines(BindingEntries([])) == []
  {
  }

  /** A line per role and per binding, sorted and joined. */
  method CanonicalText(p: Policy) returns (text: string)
    ensures text == TextOf(Entries(p))
  {
    hide LineOf, Sort, Join, Lines, RoleEntries, BindingEntries;
    var canonical := AppendCanonicalRoles(p.roles, []);
    canonical := AppendCanonicalBindings(p.bindings, canonical);
    LinesAppend(RoleEntries(p.roles), BindingEntries(p.bindings));
    assert [] + Lines(RoleEntries(p.roles)) == Lines(RoleEntries(p.roles));
    text := Join(Sort(canonical), NEWLINE);
  }

  lemma {:induction false} SameLinesSameEntries(a: seq<Entry>, b: seq<Entry>)
    requires Clear(a) && Clear(b) && multiset(Lines(a)) == multiset(Lines(b))
    ensures multiset(a) == multiset(b)
    decreases |a|
  {
    hide LineOf, ClearEntry, Lines;
    LinesOf(a);
    LinesOf(b);
    assert |multiset(Lines(a))| == |a| && |multiset(Lines(b))| == |b|;
    if a != [] {
      var last := |a| - 1;
      assert Lines(a)[last] in multiset(Lines(b));
      var j :| 0 <= j < |b| && Lines(b)[j] == Lines(a)[last];
      LineInjective(a[last], b[j]);
      var rest := b[..j] + b[j + 1..];
      RemoveLine(a, last);
      RemoveLine(b, j);
      assert a[..last] + a[last + 1..] == a[..last];
      assert multiset(Lines(a[..last])) == multiset(Lines(a)) - multiset{LineOf(a[last])};
      assert multiset(Lines(rest)) == multiset(Lines(b)) - multiset{LineOf(b[j])};
      SameLinesSameEntries(a[..last], rest);
    }
  }

  lemma RemoveLine(b: seq<Entry>, j: nat)
    requires j < |b|
    ensures var rest := b[..j] + b[j + 1..];
      multiset(b) == multiset(rest) + multiset{b[j]} && multiset(Lines(b)) == multiset(Lines(rest)) + multiset{LineOf(b[j])}
  {
    hide LineOf;
    var rest := b[..j] + b[j + 1..];
    assert b == b[..j] + [b[j]] + b[j + 1..];
    LinesAppend(b[..j] + [b[j]], b[j + 1..]);
    LinesAppend(b[..j], [b[j]]);
    LinesAppend(b[..j], b[j + 1..]);
    LinesOf([b[j]]);
    assert Lines([b[j]]) == [LineOf(b[j])];
  }

  lemma {:induction false} SameEntriesSameLines(a: seq<Entry>, b: seq<Entry>)
    requires multiset(a) == multiset(b)
    ensures multiset(Lines(a)) == multiset(Lines(b))
    decreases |a|
  {
    hide LineOf, Lines;
    assert |multiset(a)| == |multiset(b)|;
    if a == [] {
      assert b == [];
    } else {
      var last := |a| - 1;
      assert a[last] in multiset(b);
      var j :| 0 <= j < |b| && b[j] == a[last];
      RemoveLine(a, last);
      RemoveLine(b, j);
      var rest := b[..j] + b[j + 1..];
      assert a[..last] + a[last + 1..] == a[..last];
      assert multiset(a[..last]) == multiset(a) - multiset{a[last]};
      assert multiset(rest) == multiset(b) - multiset{b[j]};
      SameEntriesSameLines(a[..last], rest);
    }
  }

  /** The texts agree exactly when the entries do, whatever order they were read in. */
  lemma SameTextIffSameEntries(a: seq<Entry>, b: seq<Entry>)
    requires Clear(a) && Clear(b)
    ensures TextOf(a) == TextOf(b) <==> multiset(a) == multiset(b)
  {
    hide Join, Sort, LineOf, Lines, ClearEntry;
    if multiset(a) == multiset(b) {
      SameEntriesSameLines(a, b);
      SortIffSameItems(Lines(a), Lines(b));
    }
    if TextOf(a) == TextOf(b) {
      SortedLinesAreClear(a);
      SortedLinesAreClear(b);
      JoinInjective(Sort(Lines(a)), Sort(Lines(b)), NEWLINE);
      SortIffSameItems(Lines(a), Lines(b));
      SameLinesSameEntries(a, b);
    }
  }

  lemma SortedLinesAreClear(a: seq<Entry>)
    requires Clear(a)
    ensures Free(Sort(Lines(a)), NEWLINE) && NonEmpty(Sort(Lines(a)))
  {
    hide LineOf, ClearEntry, Sort, Lines;
    var sorted := Sort(Lines(a));
    SortSorts(Lines(a));
    LinesOf(a);
    forall i | 0 <= i < |sorted| ensures NEWLINE !in sorted[i] && sorted[i] != "" {
      assert sorted[i] in multiset(sorted) && sorted[i] in multiset(Lines(a));
      var j :| 0 <= j < |a| && Lines(a)[j] == sorted[i];
      LinesAreClear(a[j]);
    }
  }

  // -------------------------------------------------------------------- the policies

  predicate ClearPolicy(p: Policy) {
    && (forall r :: r in p.roles ==> ClearText(r.org) && ClearText(r.id) && ClearText(r.name))
    && (forall r, q :: r in p.roles && q in r.permissions ==> ClearPermission(q))
    && (forall b :: b in p.bindings ==> ClearEntry(BindingEntry(b)))
  }

  lemma {:induction false} EntriesAreClear(p: Policy)
    requires ClearPolicy(p)
    ensures Clear(Entries(p))
  {
    hide ClearPermission, ClearText, Sort;
    RoleEntriesOf(p.roles);
    BindingEntriesOf(p.bindings);
    forall i | 0 <= i < |p.roles| ensures ClearEntry(EntryOf(p.roles[i])) {
      var r := p.roles[i];
      assert r in p.roles;
      SortSorts(r.permissions);
      var sorted := Sort(r.permissions);
      forall k | 0 <= k < |sorted| ensures ClearPermission(sorted[k]) {
        assert sorted[k] in multiset(sorted) && sorted[k] in multiset(r.permissions) && sorted[k] in r.permissions;
      }
    }
    forall i | 0 <= i < |p.bindings| ensures ClearEntry(BindingEntry(p.bindings[i])) {
      assert p.bindings[i] in p.bindings;
    }
  }

  lemma {:induction false} RoleEntriesOf(roles: seq<RoleRow>)
    ensures |RoleEntries(roles)| == |roles| && forall i :: 0 <= i < |roles| ==> RoleEntries(roles)[i] == EntryOf(roles[i])
    decreases |roles|
  {
    if roles != [] { RoleEntriesOf(roles[..|roles| - 1]); }
  }

  lemma {:induction false} BindingEntriesOf(bindings: seq<BindingRow>)
    ensures |BindingEntries(bindings)| == |bindings|
    ensures forall i :: 0 <= i < |bindings| ==> BindingEntries(bindings)[i] == BindingEntry(bindings[i])
    decreases |bindings|
  {
    if bindings != [] { BindingEntriesOf(bindings[..|bindings| - 1]); }
  }

  /** Equal texts mean equal policies: the same roles with the same permissions, and the same bindings. */
  lemma FingerprintIsFaithful(p: Policy, q: Policy)
    requires ClearPolicy(p) && ClearPolicy(q)
    ensures TextOf(Entries(p)) == TextOf(Entries(q)) <==> multiset(Entries(p)) == multiset(Entries(q))
  {
    EntriesAreClear(p);
    EntriesAreClear(q);
    SameTextIffSameEntries(Entries(p), Entries(q));
  }

  /** Two role rows are one entry exactly when they differ in the order of their permissions only. */
  lemma EntryForgetsPermissionOrder(r: RoleRow, s: RoleRow)
    ensures EntryOf(r) == EntryOf(s) <==>
      r.org == s.org && r.id == s.id && r.name == s.name && multiset(r.permissions) == multiset(s.permissions)
  {
    hide Sort;
    SortIffSameItems(r.permissions, s.permissions);
  }
}
