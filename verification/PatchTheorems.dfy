/**
 * What a PATCH request does to a user or a group, in terms of the request as it
 * was sent: the last operation that gives an attribute a value decides.
 */
module PatchTheorems {
  import opened Common
  import opened ScimTables
  import opened ScimReconcile
  import opened ScimPatch

  // ------------------------------------------------------------ what a request says

  /** The operation gives the attribute this value: under its path, or as a key of a pathless object, however spelled. */
  predicate Gives(raw: RawOp, name: string, v: Value) {
    if raw.path.NoPath? && raw.value.Object? then exists k :: k in raw.value.fields && SameText(k, name) && raw.value.fields[k] == v
    else (raw.path == Attribute(name) || (raw.path.BracketEmail? && name == "emails")) && raw.value == v
  }

  predicate Removes(raw: RawOp) {
    SameText(raw.op, "remove")
  }

  /** A value of an attribute: the active flag, or a text that may be missing. */
  datatype Part = IsActive(active: bool) | Is(text: Option<string>)

  /** What an attribute becomes when an operation gives it this value, if anything. */
  function Meaning(name: string, removes: bool, v: Value): Option<Part> {
    if name == "active" then
      match v
      case Flag(b) => Some(IsActive(b))
      case Null => Some(IsActive(false))
      case Text(s) => if SameText(s, "true") then Some(IsActive(true)) else if SameText(s, "false") then Some(IsActive(false)) else None
      case _ => None
    else if name == "externalid" && removes then Some(Is(None))
    else if name == "displayname" && removes then Some(Is(Some("")))
    else
      match v
      case Text(s) => if s == "" && name == "externalid" then Some(Is(None)) else if s == "" && name == "emails" then None else Some(Is(Some(s)))
      case Null => if name == "externalid" then Some(Is(None)) else if name == "emails" then None else Some(Is(Some("")))
      case Mail(s) => if name == "emails" && s != "" then Some(Is(Some(s))) else None
      case _ => None
  }

  const USER_NAMES := {"active", "username", "externalid", "displayname", "emails"}

  function UserPart(e: UserEdit, name: string): Part {
    if name == "active" then IsActive(e.active)
    else if name == "username" then Is(Some(e.userName))
    else if name == "externalid" then Is(e.externalId)
    else if name == "displayname" then Is(e.displayName)
    else Is(e.email)
  }

  const GROUP_NAMES := {"displayname", "externalid"}

  function GroupPart(e: GroupEdit, name: string): Part {
    if name == "displayname" then Is(Some(e.name)) else Is(e.externalId)
  }

  // ------------------------------------------------------------- one flat operation

  /** What a flat operation sets its attribute to. */
  function Sets(op: Op): Option<Part> {
    match op.attribute
    case ActiveAttr => if op.flag.Some? then Some(IsActive(op.flag.value)) else None
    case UserNameAttr => if op.text.Some? then Some(Is(op.text)) else None
    case ExternalIdAttr => if op.kind == Remove || op.text == Some("") then Some(Is(None)) else if op.text.Some? then Some(Is(op.text)) else None
    case DisplayNameAttr => if op.kind == Remove then Some(Is(Some(""))) else if op.text.Some? then Some(Is(op.text)) else None
    case EmailsAttr => if op.text.Some? && op.text.value != "" then Some(Is(op.text)) else None
    case _ => None
  }

  /** The edit sets the attributes it knows to what the operations say, and touches no other attribute. */
  ghost predicate Tracks<S(!new)>(edit: (Option<S>, Op) -> Option<S>, part: (S, string) -> Part, names: set<string>) {
    && (forall op :: edit(None, op) == None)
    && (forall s, op, name :: name in names && edit(Some(s), op).Some? ==>
          part(edit(Some(s), op).value, name)
          == if op.attribute == AttrOf(name) && Sets(op).Some? then Sets(op).value else part(s, name))
  }

  lemma AttributeNames()
    ensures AttrOf("active") == ActiveAttr && AttrOf("username") == UserNameAttr && AttrOf("externalid") == ExternalIdAttr
    ensures AttrOf("displayname") == DisplayNameAttr && AttrOf("emails") == EmailsAttr && AttrOf("members") == MembersAttr
  {
  }

  lemma UserEditTracksAt(s: UserEdit, op: Op, name: string)
    requires name in USER_NAMES && EditUser(Some(s), op).Some?
    ensures UserPart(EditUser(Some(s), op).value, name)
      == if op.attribute == AttrOf(name) && Sets(op).Some? then Sets(op).value else UserPart(s, name)
  {
    AttributeNames();
    hide Blank, AttrOf;
  }

  lemma UserEditTracks()
    ensures Tracks(EditUser, UserPart, USER_NAMES)
  {
    hide EditUser, UserPart, AttrOf, Sets;
    forall s, op, name | name in USER_NAMES && EditUser(Some(s), op).Some?
      ensures UserPart(EditUser(Some(s), op).value, name)
        == if op.attribute == AttrOf(name) && Sets(op).Some? then Sets(op).value else UserPart(s, name)
    {
      UserEditTracksAt(s, op, name);
    }
    forall op ensures EditUser(None, op) == None { UserRefusedStays(op); }
  }

  lemma UserRefusedStays(op: Op)
    ensures EditUser(None, op) == None
  {
  }

  lemma GroupEditTracksAt(s: GroupEdit, op: Op, name: string)
    requires name in GROUP_NAMES && EditGroup(Some(s), op).Some?
    ensures GroupPart(EditGroup(Some(s), op).value, name)
      == if op.attribute == AttrOf(name) && Sets(op).Some? then Sets(op).value else GroupPart(s, name)
  {
    AttributeNames();
    hide Blank, AttrOf, EditMembers;
  }

  lemma GroupEditTracks()
    ensures Tracks(EditGroup, GroupPart, GROUP_NAMES)
  {
    hide EditGroup, GroupPart, AttrOf, Sets;
    forall s, op, name | name in GROUP_NAMES && EditGroup(Some(s), op).Some?
      ensures GroupPart(EditGroup(Some(s), op).value, name)
        == if op.attribute == AttrOf(name) && Sets(op).Some? then Sets(op).value else GroupPart(s, name)
    {
      GroupEditTracksAt(s, op, name);
    }
    forall op ensures EditGroup(None, op) == None { RefusedStaysRefused(op); }
  }

  lemma TracksAt<S(!new)>(edit: (Option<S>, Op) -> Option<S>, part: (S, string) -> Part, names: set<string>, s: Option<S>, op: Op, name: string)
    requires Tracks(edit, part, names) && name in names && edit(s, op).Some?
    ensures s.Some? && part(edit(s, op).value, name)
      == if op.attribute == AttrOf(name) && Sets(op).Some? then Sets(op).value else part(s.value, name)
  {
  }

  /** Of operations that agree on an attribute, one is enough to set it, and without any it stays. */
  lemma {:induction false} FoldSets<S(!new)>(
      edit: (Option<S>, Op) -> Option<S>, part: (S, string) -> Part, names: set<string>, s: Option<S>, ops: seq<Op>, name: string, to: Option<Part>)
    requires Tracks(edit, part, names) && name in names && Fold(edit, s, ops).Some?
    requires forall op :: op in ops && op.attribute == AttrOf(name) ==> Sets(op) == to
    ensures s.Some?
    ensures part(Fold(edit, s, ops).value, name)
      == if to.Some? && exists op :: op in ops && op.attribute == AttrOf(name) then to.value else part(s.value, name)
    decreases |ops|
  {
    hide Tracks, Sets, AttrOf;
    if ops != [] {
      var init, last := ops[..|ops| - 1], ops[|ops| - 1];
      assert last in ops && ops == init + [last];
      TracksAt(edit, part, names, Fold(edit, s, init), last, name);
      FoldSets(edit, part, names, s, init, name, to);
    }
  }

  // ------------------------------------------------------------- one operation as sent

  lemma LowerSpelling(s: string, name: string)
    requires NoCapitals(name)
    ensures Lower(s) == name <==> SameText(s, name)
  {
    LowerIsLower(name);
    LowerIff(s, name);
  }

  lemma OpNames(op: string)
    ensures KindOf(op) == Some(Add) <==> SameText(op, "add")
    ensures KindOf(op) == Some(Replace) <==> SameText(op, "replace")
    ensures KindOf(op) == Some(Remove) <==> SameText(op, "remove")
  {
    LowerSpelling(op, "add");
    LowerSpelling(op, "replace");
    LowerSpelling(op, "remove");
  }

  lemma RemovesIs(raw: RawOp)
    ensures Removes(raw) <==> KindOf(raw.op) == Some(Remove)
  {
    OpNames(raw.op);
  }

  lemma FlagMeans(removes: bool, v: Value)
    ensures Meaning("active", removes, v) == if AsFlag(v).Some? then Some(IsActive(AsFlag(v).value)) else None
  {
    if v.Text? {
      LowerSpelling(v.text, "true");
      LowerSpelling(v.text, "false");
    }
  }

  lemma ActiveMeans(kind: OpKind, v: Value)
    ensures var r := BuildScalarOp(kind, ActiveAttr, v);
      r.Ok? ==> r.value.Some? && r.value.value.attribute == ActiveAttr && Sets(r.value.value) == Meaning("active", kind == Remove, v)
  {
    FlagMeans(kind == Remove, v);
    assert v.NoValue? ==> AsFlag(v).None?;
    hide AsFlag, Meaning;
  }

  lemma TextMeans(kind: OpKind, name: string, v: Value)
    requires name in USER_NAMES - {"active"}
    ensures var r := BuildScalarOp(kind, AttrOf(name), v);
      r.Ok? ==> r.value.Some? && r.value.value.attribute == AttrOf(name) && Sets(r.value.value) == Meaning(name, kind == Remove, v)
  {
    AttributeNames();
    hide AttrOf, SameText, AsFlag;
  }

  /** The flat operation of an attribute's value sets the attribute to what the value means. */
  lemma ScalarMeans(kind: OpKind, name: string, v: Value)
    requires name in USER_NAMES
    ensures var r := BuildScalarOp(kind, AttrOf(name), v);
      r.Ok? ==> r.value.Some? && r.value.value.attribute == AttrOf(name) && Sets(r.value.value) == Meaning(name, kind == Remove, v)
  {
    hide BuildScalarOp, Sets, Meaning;
    if name == "active" {
      AttributeNames();
      ActiveMeans(kind, v);
    } else {
      TextMeans(kind, name, v);
    }
  }

  lemma KeysOfName(key: string, name: string)
    requires name in USER_NAMES
    ensures KeyAttr(key) == AttrOf(name) <==> SameText(key, name)
  {
    assert NoCapitals(name);
    LowerSpelling(key, name);
    AttrInjective(Lower(key), name);
  }

  /** Whatever the walk over an object, its operations on an attribute are those of the keys that spell it. */
  lemma {:induction false} ObjectOpsAre(kind: OpKind, fields: map<string, Value>, order: seq<string>, name: string, to: Option<Part>)
    requires name in USER_NAMES && (forall k :: k in order ==> k in fields) && BuildsAll(kind, fields)
    requires forall k :: k in fields && SameText(k, name) ==> Meaning(name, kind == Remove, fields[k]) == to
    ensures forall op :: op in ObjectOps(kind, fields, order) && op.attribute == AttrOf(name) ==> Sets(op) == to
    ensures (exists op :: op in ObjectOps(kind, fields, order) && op.attribute == AttrOf(name)) <==> exists k :: k in order && SameText(k, name)
    decreases |order|
  {
    hide BuildScalarOp, AttrOf, SameText, Meaning, Sets, KeyAttr;
    if order != [] {
      var init, key := order[..|order| - 1], order[|order| - 1];
      assert key in order && order == init + [key];
      ObjectOpsAre(kind, fields, init, name, to);
      KeysOfName(key, name);
      ScalarMeans(kind, name, fields[key]);
      var ops := KeyOps(kind, key, fields[key]);
      assert KeyAttr(key) == AttrOf(name) ==> BuildScalarOp(kind, AttrOf(name), fields[key]).Ok?;
      assert KeyAttr(key) == AttrOf(name) ==> ops != [] && ops[0] in ops;
    }
  }

  /** The flat operations of one sent operation on an attribute set it to what the value it gives means. */
  lemma ExpansionMeans(raw: RawOp, ops: seq<Op>, name: string, to: Option<Part>)
    requires name in USER_NAMES && Expansion(raw, ops)
    requires forall v :: Gives(raw, name, v) ==> Meaning(name, Removes(raw), v) == to
    ensures forall op :: op in ops && op.attribute == AttrOf(name) ==> Sets(op) == to
    ensures (exists op :: op in ops && op.attribute == AttrOf(name)) <==> exists v :: Gives(raw, name, v)
  {
    hide AttrOf, SameText, Meaning, Sets, ObjectOps, KindOf, BuildsAll, Removes;
    RemovesIs(raw);
    var kind := KindOf(raw.op).value;
    if Expands(raw) {
      var fields := raw.value.fields;
      var order :| Walk(order, fields.Keys) && ops == ObjectOps(kind, fields, order);
      forall k | k in fields && SameText(k, name) ensures Meaning(name, kind == Remove, fields[k]) == to {
        assert Gives(raw, name, fields[k]);
      }
      ObjectOpsAre(kind, fields, order, name, to);
      if k :| k in order && SameText(k, name) {
        assert Gives(raw, name, fields[k]);
      }
    } else {
      FlatMeans(kind, raw, name);
      assert Gives(raw, name, raw.value) <==> exists v :: Gives(raw, name, v);
      if FlatOp(kind, raw.path, raw.value).value.Some? {
        assert ops[0] in ops;
      }
    }
  }

  lemma FlatMeans(kind: OpKind, raw: RawOp, name: string)
    requires name in USER_NAMES && !Expands(raw) && FlatOp(kind, raw.path, raw.value).Ok?
    ensures var r := FlatOp(kind, raw.path, raw.value).value;
      && (Gives(raw, name, raw.value) <==> r.Some? && r.value.attribute == AttrOf(name))
      && (Gives(raw, name, raw.value) ==> Sets(r.value) == Meaning(name, kind == Remove, raw.value))
  {
    AttributeNames();
    hide SameText, BuildsAll;
    if raw.path.Attribute? {
      ScalarMeans(kind, name, raw.value);
      AttrInjective(raw.path.name, name);
      ScalarKeepsAttribute(kind, AttrOf(raw.path.name), raw.value);
    }
    hide AttrOf, BuildScalarOp;
  }

  lemma ScalarKeepsAttribute(kind: OpKind, attribute: Attr, v: Value)
    ensures var r := BuildScalarOp(kind, attribute, v); r.Ok? && r.value.Some? ==> r.value.value.attribute == attribute
  {
  }

  // ---------------------------------------------------------- the last operation decides

  /** Of the operations that say something about the attribute this is the last one, and it says one thing. */
  ghost predicate Decided(raws: seq<RawOp>, name: string, k: nat, to: Part) {
    && k < |raws| && (exists v :: Gives(raws[k], name, v))
    && (forall v :: Gives(raws[k], name, v) ==> Meaning(name, Removes(raws[k]), v) == Some(to))
    && (forall j, v :: k < j < |raws| && Gives(raws[j], name, v) ==> Meaning(name, Removes(raws[j]), v) == None)
  }

  ghost predicate Undecided(raws: seq<RawOp>, name: string) {
    forall j, v :: 0 <= j < |raws| && Gives(raws[j], name, v) ==> Meaning(name, Removes(raws[j]), v) == None
  }

  /** An accepted request leaves an attribute at what the last operation with a say gave it, and alone if there is none. */
  lemma {:induction false} LastSays<S(!new)>(
      edit: (Option<S>, Op) -> Option<S>, part: (S, string) -> Part, names: set<string>, start: S, raws: seq<RawOp>, ops: seq<Op>, name: string)
    requires Tracks(edit, part, names) && names <= USER_NAMES && name in names
    requires Normalizes(raws, ops) && Fold(edit, Some(start), ops).Some?
    ensures forall k: nat, to :: Decided(raws, name, k, to) ==> part(Fold(edit, Some(start), ops).value, name) == to
    ensures Undecided(raws, name) ==> part(Fold(edit, Some(start), ops).value, name) == part(start, name)
    decreases |raws|
  {
    hide Tracks, Expansion, Gives, Meaning, Removes, AttrOf, Sets;
    if raws != [] {
      var init, raw := raws[..|raws| - 1], raws[|raws| - 1];
      var n :| 0 <= n <= |ops| && Normalizes(init, ops[..n]) && Expansion(raw, ops[n..]);
      assert ops == ops[..n] + ops[n..];
      FoldAppend(edit, Some(start), ops[..n], ops[n..]);
      var before, after := Fold(edit, Some(start), ops[..n]), Fold(edit, Some(start), ops);
      StillAccepted(edit, part, names, before, ops[n..]);
      LastSays(edit, part, names, start, init, ops[..n], name);
      forall k: nat, to | Decided(raws, name, k, to) ensures part(after.value, name) == to {
        if k == |raws| - 1 {
          ExpansionMeans(raw, ops[n..], name, Some(to));
          FoldSets(edit, part, names, before, ops[n..], name, Some(to));
        } else {
          assert raws[k] == init[k] && forall j :: 0 <= j < |init| ==> init[j] == raws[j];
          assert Decided(init, name, k, to);
          ExpansionMeans(raw, ops[n..], name, None);
          FoldSets(edit, part, names, before, ops[n..], name, None);
        }
      }
      if Undecided(raws, name) {
        assert forall j :: 0 <= j < |init| ==> init[j] == raws[j];
        assert Undecided(init, name);
        ExpansionMeans(raw, ops[n..], name, None);
        FoldSets(edit, part, names, before, ops[n..], name, None);
      }
    }
  }

  lemma {:induction false} StillAccepted<S(!new)>(
      edit: (Option<S>, Op) -> Option<S>, part: (S, string) -> Part, names: set<string>, s: Option<S>, ops: seq<Op>)
    requires Tracks(edit, part, names) && Fold(edit, s, ops).Some?
    ensures s.Some?
    decreases |ops|
  {
    if ops != [] {
      StillAccepted(edit, part, names, s, ops[..|ops| - 1]);
    }
  }

  // ------------------------------------------------------------ what is turned away

  /** The operation takes away or blanks the attribute that must not be empty. */
  predicate Empties(op: Op, attribute: Attr) {
    op.attribute == attribute && (op.kind == Remove || (op.text.Some? && Blank(op.text.value)))
  }

  ghost predicate EmptiesIn(raw: RawOp, name: string, v: Value) {
    Gives(raw, name, v) && (Removes(raw) || v.Null? || (v.Text? && Blank(v.text)))
  }

  /** The edit turns away what empties its attribute, and nothing else. */
  ghost predicate Guards<S(!new)>(edit: (Option<S>, Op) -> Option<S>, attribute: Attr) {
    forall s, op :: edit(s, op).None? <==> s.None? || Empties(op, attribute)
  }

  lemma EditsGuard()
    ensures Guards(EditUser, UserNameAttr) && Guards(EditGroup, DisplayNameAttr)
  {
    hide Blank, EditMembers;
  }

  lemma {:induction false} FoldGuards<S(!new)>(edit: (Option<S>, Op) -> Option<S>, attribute: Attr, s: Option<S>, ops: seq<Op>)
    requires Guards(edit, attribute)
    ensures Fold(edit, s, ops).None? <==> s.None? || exists op :: op in ops && Empties(op, attribute)
    decreases |ops|
  {
    hide Empties;
    if ops != [] {
      var init, last := ops[..|ops| - 1], ops[|ops| - 1];
      assert ops == init + [last];
      FoldGuards(edit, attribute, s, init);
    }
  }

  lemma ScalarEmpties(kind: OpKind, name: string, v: Value)
    requires name in {"username", "displayname"}
    ensures var r := BuildScalarOp(kind, AttrOf(name), v);
      r.Ok? ==> r.value.Some? && (Empties(r.value.value, AttrOf(name)) <==> kind == Remove || v.Null? || (v.Text? && Blank(v.text)))
  {
    AttributeNames();
    assert Blank("");
    hide AttrOf, Blank;
  }

  lemma {:induction false} ObjectEmpties(kind: OpKind, fields: map<string, Value>, order: seq<string>, name: string)
    requires name in {"username", "displayname"} && (forall k :: k in order ==> k in fields) && BuildsAll(kind, fields)
    ensures (exists op :: op in ObjectOps(kind, fields, order) && Empties(op, AttrOf(name)))
      <==> exists k :: k in order && SameText(k, name) && (kind == Remove || fields[k].Null? || (fields[k].Text? && Blank(fields[k].text)))
    decreases |order|
  {
    hide BuildScalarOp, AttrOf, SameText, Blank, KeyAttr;
    if order != [] {
      var init, key := order[..|order| - 1], order[|order| - 1];
      assert key in order && order == init + [key];
      ObjectEmpties(kind, fields, init, name);
      KeysOfName(key, name);
      ScalarEmpties(kind, name, fields[key]);
      var ops := KeyOps(kind, key, fields[key]);
      assert KeyAttr(key) == AttrOf(name) ==> BuildScalarOp(kind, AttrOf(name), fields[key]).Ok?;
      assert KeyAttr(key) == AttrOf(name) ==> ops != [] && ops[0] in ops;
    }
  }

  lemma ExpansionEmpties(raw: RawOp, ops: seq<Op>, name: string)
    requires name in {"username", "displayname"} && Expansion(raw, ops)
    ensures (exists op :: op in ops && Empties(op, AttrOf(name))) <==> exists v :: EmptiesIn(raw, name, v)
  {
    hide AttrOf, SameText, ObjectOps, KindOf, BuildsAll, Removes, Blank, BuildScalarOp;
    RemovesIs(raw);
    var kind := KindOf(raw.op).value;
    if Expands(raw) {
      var fields := raw.value.fields;
      var order :| Walk(order, fields.Keys) && ops == ObjectOps(kind, fields, order);
      ObjectEmpties(kind, fields, order, name);
      if k :| k in order && SameText(k, name) && (kind == Remove || fields[k].Null? || (fields[k].Text? && Blank(fields[k].text))) {
        assert EmptiesIn(raw, name, fields[k]);
      }
    } else {
      FlatMeans(kind, raw, name);
      FlatEmpties(kind, raw, name);
      assert EmptiesIn(raw, name, raw.value) <==> exists v :: EmptiesIn(raw, name, v);
      if FlatOp(kind, raw.path, raw.value).value.Some? {
        assert ops[0] in ops;
      }
    }
  }

  lemma FlatEmpties(kind: OpKind, raw: RawOp, name: string)
    requires name in {"username", "displayname"} && !Expands(raw) && FlatOp(kind, raw.path, raw.value).Ok?
    requires kind == Remove <==> Removes(raw)
    ensures var r := FlatOp(kind, raw.path, raw.value).value;
      EmptiesIn(raw, name, raw.value) <==> r.Some? && Empties(r.value, AttrOf(name))
  {
    AttributeNames();
    hide SameText, BuildsAll, Blank, Removes;
    if raw.path.Attribute? {
      ScalarEmpties(kind, name, raw.value);
      AttrInjective(raw.path.name, name);
      ScalarKeepsAttribute(kind, AttrOf(raw.path.name), raw.value);
    }
    hide AttrOf, BuildScalarOp;
  }

  /** A normalised request is turned away exactly if one of its operations removes or blanks what must not be empty. */
  lemma {:induction false} RefusedIff<S(!new)>(edit: (Option<S>, Op) -> Option<S>, start: S, raws: seq<RawOp>, ops: seq<Op>, name: string)
    requires name in {"username", "displayname"} && Guards(edit, AttrOf(name)) && Normalizes(raws, ops)
    ensures Fold(edit, Some(start), ops).None? <==> exists j, v :: 0 <= j < |raws| && EmptiesIn(raws[j], name, v)
    decreases |raws|
  {
    hide Guards, Expansion, EmptiesIn, AttrOf, Empties;
    if raws != [] {
      var init, raw := raws[..|raws| - 1], raws[|raws| - 1];
      var n :| 0 <= n <= |ops| && Normalizes(init, ops[..n]) && Expansion(raw, ops[n..]);
      assert ops == ops[..n] + ops[n..];
      FoldAppend(edit, Some(start), ops[..n], ops[n..]);
      RefusedIff(edit, start, init, ops[..n], name);
      FoldGuards(edit, AttrOf(name), Fold(edit, Some(start), ops[..n]), ops[n..]);
      ExpansionEmpties(raw, ops[n..], name);
      if j, v :| 0 <= j < |init| && EmptiesIn(init[j], name, v) {
        assert EmptiesIn(raws[j], name, v);
      }
      if v :| EmptiesIn(raw, name, v) {
        assert EmptiesIn(raws[|raws| - 1], name, v);
      }
      if j, v :| 0 <= j < |raws| && EmptiesIn(raws[j], name, v) && j < |init| {
        assert EmptiesIn(init[j], name, v);
      }
    }
  }

  // ------------------------------------------------------------------ users and groups

  /** A user PATCH: refused exactly if it takes the user name away, and otherwise the last say on each attribute stands. */
  lemma UserPatchMeans(user: UserEdit, raws: seq<RawOp>, ops: seq<Op>, name: string)
    requires Normalizes(raws, ops) && name in USER_NAMES
    ensures var r := Fold(EditUser, Some(user), ops);
      && (r.None? <==> exists j, v :: 0 <= j < |raws| && EmptiesIn(raws[j], "username", v))
      && (r.Some? ==> forall k: nat, to :: Decided(raws, name, k, to) ==> UserPart(r.value, name) == to)
      && (r.Some? ==> Undecided(raws, name) ==> UserPart(r.value, name) == UserPart(user, name))
  {
    hide EditUser, Tracks, Guards, EmptiesIn, Decided, Undecided, Normalizes;
    AttributeNames();
    EditsGuard();
    UserEditTracks();
    RefusedIff(EditUser, user, raws, ops, "username");
    if Fold(EditUser, Some(user), ops).Some? {
      LastSays(EditUser, UserPart, USER_NAMES, user, raws, ops, name);
    }
  }

  /** A group PATCH treats its name and external id the same way. */
  lemma GroupPatchMeans(group: GroupEdit, raws: seq<RawOp>, ops: seq<Op>, name: string)
    requires Normalizes(raws, ops) && name in GROUP_NAMES
    ensures var r := Fold(EditGroup, Some(group), ops);
      && (r.None? <==> exists j, v :: 0 <= j < |raws| && EmptiesIn(raws[j], "displayname", v))
      && (r.Some? ==> forall k: nat, to :: Decided(raws, name, k, to) ==> GroupPart(r.value, name) == to)
      && (r.Some? ==> Undecided(raws, name) ==> GroupPart(r.value, name) == GroupPart(group, name))
  {
    hide EditGroup, Tracks, Guards, EmptiesIn, Decided, Undecided, Normalizes;
    AttributeNames();
    EditsGuard();
    GroupEditTracks();
    RefusedIff(EditGroup, group, raws, ops, "displayname");
    if Fold(EditGroup, Some(group), ops).Some? {
      LastSays(EditGroup, GroupPart, GROUP_NAMES, group, raws, ops, name);
    }
  }

  /** The operation replaces or adds the active flag and nothing else: by path, or as the one key of a pathless object. */
  ghost predicate SetsActive(raw: RawOp, v: Value) {
    && (SameText(raw.op, "replace") || SameText(raw.op, "add"))
    && ((raw.path == Attribute("active") && raw.value == v)
        || (raw.path.NoPath? && raw.value.Object? && exists k :: SameText(k, "active") && raw.value.fields == map[k := v]))
  }

  lemma SpellsOne(k: string, name: string, other: string)
    requires SameText(k, name) && NoCapitals(name) && NoCapitals(other)
    ensures SameText(k, other) <==> name == other
  {
    LowerSpelling(k, name);
    LowerSpelling(k, other);
  }

  /** The operation gives the active flag its value, and no other attribute anything. */
  lemma GivesOnlyActive(raw: RawOp, v: Value, name: string, w: Value)
    requires SetsActive(raw, v) && name in USER_NAMES
    ensures Gives(raw, name, w) <==> name == "active" && w == v
  {
    hide SameText;
    if raw.path.NoPath? {
      var k :| SameText(k, "active") && raw.value.fields == map[k := v];
      assert NoCapitals(name) && NoCapitals("active");
      SpellsOne(k, "active", name);
      assert k in raw.value.fields;
    }
  }

  /** The normaliser lets through true, false, null and the two words. */
  lemma AcceptedFlag(raw: RawOp, v: Value, ops: seq<Op>)
    requires SetsActive(raw, v) && !v.NoValue? && Expansion(raw, ops)
    ensures !Removes(raw) && Meaning("active", false, v) == Some(IsActive(v == Flag(true) || (v.Text? && SameText(v.text, "true"))))
  {
    hide SameText, KindOf;
    OpNames(raw.op);
    RemovesIs(raw);
    AttributeNames();
    FlagMeans(false, v);
    if raw.path.NoPath? {
      var k :| SameText(k, "active") && raw.value.fields == map[k := v];
      assert k in raw.value.fields;
      KeysOfName(k, "active");
      assert BuildScalarOp(KindOf(raw.op).value, KeyAttr(k), v).Ok?;
    }
    hide AttrOf, KeyAttr;
  }

  lemma PartsDetermine(e: UserEdit, f: UserEdit)
    requires forall name :: name in USER_NAMES ==> UserPart(e, name) == UserPart(f, name)
    ensures e == f
  {
    assert UserPart(e, "active") == UserPart(f, "active") && UserPart(e, "username") == UserPart(f, "username");
    assert UserPart(e, "externalid") == UserPart(f, "externalid") && UserPart(e, "displayname") == UserPart(f, "displayname");
    assert UserPart(e, "emails") == UserPart(f, "emails");
  }

  /** Such an operation, once accepted, makes the user active exactly for true and "true", in any case; nothing else changes. */
  lemma ActiveIsAsSent(user: UserEdit, raw: RawOp, v: Value, ops: seq<Op>)
    requires SetsActive(raw, v) && !v.NoValue? && Normalizes([raw], ops)
    ensures Fold(EditUser, Some(user), ops) == Some(user.(active := v == Flag(true) || (v.Text? && SameText(v.text, "true"))))
  {
    hide Normalizes, Gives, Meaning, Removes, SetsActive, EditUser, SameText, Expansion, UserPart;
    var raws, active := [raw], v == Flag(true) || (v.Text? && SameText(v.text, "true"));
    OneExpansion(raw, ops);
    AcceptedFlag(raw, v, ops);
    forall name, w | name in USER_NAMES ensures Gives(raw, name, w) <==> name == "active" && w == v {
      GivesOnlyActive(raw, v, name, w);
    }
    assert Decided(raws, "active", 0, IsActive(active)) by { assert Gives(raws[0], "active", v); }
    var r := Fold(EditUser, Some(user), ops);
    forall name | name in USER_NAMES ensures r.Some? && UserPart(r.value, name) == UserPart(user.(active := active), name) {
      UserPatchMeans(user, raws, ops, name);
      OnlyActiveDiffers(user, active, name);
      assert name != "active" ==> Undecided(raws, name);
    }
    assert r.Some? by { assert "active" in USER_NAMES; }
    PartsDetermine(r.value, user.(active := active));
  }

  lemma OnlyActiveDiffers(e: UserEdit, active: bool, name: string)
    ensures UserPart(e.(active := active), name) == if name == "active" then IsActive(active) else UserPart(e, name)
  {
  }

  lemma OneExpansion(raw: RawOp, ops: seq<Op>)
    requires Normalizes([raw], ops)
    ensures Expansion(raw, ops)
  {
    hide Expansion;
    assert [raw][..0] == [];
    var n :| 0 <= n <= |ops| && Normalizes([], ops[..n]) && Expansion(raw, ops[n..]);
    assert n == 0 && ops[n..] == ops;
  }

  /** One operation with the word "false" on the active flag is a last say. */
  lemma FalseIsDecided(raw: RawOp, s: string)
    requires SetsActive(raw, Text(s)) && SameText(s, "false")
    ensures Decided([raw], "active", 0, IsActive(false))
  {
    hide SetsActive, SameText, KindOf, Gives;
    forall w ensures Gives(raw, "active", w) <==> w == Text(s) {
      GivesOnlyActive(raw, Text(s), "active", w);
    }
    LowerSpelling(s, "true");
    LowerSpelling(s, "false");
    assert Gives([raw][0], "active", Text(s));
  }

  // -------------------------------------------------------------------- group members

  predicate Lists(v: Value, member: Id) {
    v.People? && Some(member) in v.ids
  }

  /** The operation has the say on the member: it replaces the list, empties it, or names them. */
  predicate SaysOn(raw: RawOp, member: Id) {
    || raw.path == BracketMember(Some(member))
    || (raw.path == Attribute("members") && (SameText(raw.op, "replace") || (Removes(raw) && raw.value.NoValue?) || Lists(raw.value, member)))
  }

  predicate SaysIn(raw: RawOp, member: Id) {
    raw.path == Attribute("members") && !Removes(raw) && Lists(raw.value, member)
  }

  /** Decoded objects have a value under each of their keys. */
  predicate Decoded(raw: RawOp) {
    raw.value.Object? ==> forall k :: k in raw.value.fields ==> !raw.value.fields[k].NoValue?
  }

  lemma ValidIdsAre(ids: seq<Option<Id>>, member: Id)
    ensures ValidIds(ids).Some? ==> (member in ValidIds(ids).value <==> Some(member) in ids)
  {
    hide ValidIds;
    if ValidIds(ids).Some? {
      var valid := ValidIds(ids).value;
      if member in valid {
        var i :| 0 <= i < |valid| && valid[i] == member;
        assert ids[i] == Some(member);
      }
      if Some(member) in ids {
        var i :| 0 <= i < |ids| && ids[i] == Some(member);
        assert valid[i] == member;
      }
    }
  }

  /** Of an operation's flat ones at most one has a say on a member, and it says what was sent. */
  lemma ExpansionSays(raw: RawOp, ops: seq<Op>, member: Id)
    requires Expansion(raw, ops) && Decoded(raw)
    ensures forall op :: op in ops ==> (op.removeAll ==> op.kind == Remove)
    ensures SaysOn(raw, member) ==> |ops| == 1 && Decides(ops[0], member) && (DecidesIn(ops[0], member) <==> SaysIn(raw, member))
    ensures !SaysOn(raw, member) ==> forall op :: op in ops ==> !Decides(op, member)
  {
    hide SameText, ObjectOps, KindOf, BuildsAll, FlatOp;
    OpNames(raw.op);
    RemovesIs(raw);
    var kind := KindOf(raw.op).value;
    if Expands(raw) {
      var order :| Walk(order, raw.value.fields.Keys) && ops == ObjectOps(kind, raw.value.fields, order);
      ObjectsSkipMembers(kind, raw.value.fields, order);
      ObjectsKeepAll(kind, raw.value.fields, order);
    } else {
      FlatSays(kind, raw, member);
    }
  }

  lemma {:induction false} ObjectsKeepAll(kind: OpKind, fields: map<string, Value>, order: seq<string>)
    requires forall k :: k in order ==> k in fields
    ensures forall op :: op in ObjectOps(kind, fields, order) ==> !op.removeAll
    decreases |order|
  {
    hide AttrOf, Lower;
    if order != [] {
      assert order[|order| - 1] in order;
      ObjectsKeepAll(kind, fields, order[..|order| - 1]);
    }
  }

  lemma FlatSays(kind: OpKind, raw: RawOp, member: Id)
    requires !Expands(raw) && FlatOp(kind, raw.path, raw.value).Ok? && KindOf(raw.op) == Some(kind)
    ensures var r := FlatOp(kind, raw.path, raw.value).value;
      && (r.Some? ==> (r.value.removeAll ==> r.value.kind == Remove))
      && (SaysOn(raw, member) <==> r.Some? && Decides(r.value, member))
      && (SaysOn(raw, member) ==> (DecidesIn(r.value, member) <==> SaysIn(raw, member)))
  {
    OpNames(raw.op);
    RemovesIs(raw);
    AttributeNames();
    hide SameText, KindOf, Removes, BuildsAll;
    match raw.path
    case Attribute(name) =>
      AttrInjective(name, "members");
      ScalarHasNoMembers(kind, AttrOf(name), raw.value);
      if AsPeople(raw.value).Some? {
        ValidIdsAre(AsPeople(raw.value).value, member);
      }
      hide AttrOf, BuildScalarOp, ValidIds;
    case _ => hide AttrOf, BuildScalarOp, ValidIds;
  }

  lemma ScalarHasNoMembers(kind: OpKind, attribute: Attr, v: Value)
    ensures var r := BuildScalarOp(kind, attribute, v);
      r.Ok? && r.value.Some? ==>
        r.value.value.attribute == attribute && r.value.value.kind == kind && r.value.value.ids == [] && !r.value.value.removeAll
  {
  }

  lemma OneSentDecides(before: GroupEdit, raw: RawOp, ops: seq<Op>, member: Id)
    requires Expansion(raw, ops) && Decoded(raw) && Fold(EditGroup, Some(before), ops).Some?
    ensures member in Fold(EditGroup, Some(before), ops).value.members
      <==> if SaysOn(raw, member) then SaysIn(raw, member) else member in before.members
  {
    hide EditGroup, Expansion, SaysOn, SaysIn, Decoded, Decides, DecidesIn, Fold;
    ExpansionSays(raw, ops, member);
    LastOperationDecides(before, ops, member);
    if SaysOn(raw, member) {
      assert LastSay(ops, member, 0);
    } else {
      assert forall j :: 0 <= j < |ops| ==> ops[j] in ops;
    }
  }

  /** The last operation sent that has a say on a member decides; if none has, the stored members do. */
  lemma {:induction false} MembersAreAsSent(group: GroupEdit, raws: seq<RawOp>, ops: seq<Op>, member: Id)
    requires Normalizes(raws, ops) && Fold(EditGroup, Some(group), ops).Some? && forall raw :: raw in raws ==> Decoded(raw)
    ensures var members := Fold(EditGroup, Some(group), ops).value.members;
      && (forall k :: 0 <= k < |raws| && SaysOn(raws[k], member) && (forall j :: k < j < |raws| ==> !SaysOn(raws[j], member)) ==>
            (member in members <==> SaysIn(raws[k], member)))
      && ((forall k :: 0 <= k < |raws| ==> !SaysOn(raws[k], member)) ==> (member in members <==> member in group.members))
    decreases |raws|
  {
    hide EditGroup, Expansion, SaysOn, SaysIn, Decoded;
    if raws != [] {
      var init, raw := raws[..|raws| - 1], raws[|raws| - 1];
      assert raw in raws && forall r :: r in init ==> r in raws;
      var n :| 0 <= n <= |ops| && Normalizes(init, ops[..n]) && Expansion(raw, ops[n..]);
      assert ops == ops[..n] + ops[n..];
      FoldAppend(EditGroup, Some(group), ops[..n], ops[n..]);
      var before := Fold(EditGroup, Some(group), ops[..n]);
      StillAGroup(before, ops[n..]);
      MembersAreAsSent(group, init, ops[..n], member);
      OneSentDecides(before.value, raw, ops[n..], member);
      assert forall k :: 0 <= k < |init| ==> init[k] == raws[k];
    }
  }

  lemma StillAGroup(s: Option<GroupEdit>, ops: seq<Op>)
    requires Fold(EditGroup, s, ops).Some?
    ensures s.Some?
  {
    hide EditGroup, Tracks;
    GroupEditTracks();
    StillAccepted(EditGroup, GroupPart, GROUP_NAMES, s, ops);
  }

  // ----------------------------------------------------------------- what is accepted

  /** A value the attribute can take. */
  predicate Fits(name: string, v: Value) {
    || v.NoValue?
    || (name == "active" && (v.Flag? || v.Null? || (v.Text? && (SameText(v.text, "true") || SameText(v.text, "false")))))
    || (name in {"username", "externalid", "displayname"} && (v.Text? || v.Null?))
    || (name == "emails" && (v.Mail? || v.Text? || v.Null?))
  }

  /** An operation the normaliser lets through: a known verb, a path it makes sense for, and values of the right kind. */
  predicate Acceptable(raw: RawOp) {
    && (SameText(raw.op, "add") || SameText(raw.op, "replace") || Removes(raw))
    && match raw.path
       case NoPath => raw.value.Object? ==> forall k, name :: k in raw.value.fields && name in USER_NAMES && SameText(k, name) ==> Fits(name, raw.value.fields[k])
       case BracketMember(id) => Removes(raw) && id.Some?
       case BracketEmail => raw.value.NoValue? || raw.value.Text? || raw.value.Null?
       case Attribute(name) =>
         && (name in USER_NAMES ==> Fits(name, raw.value))
         && (name == "members" ==> raw.value.NoValue? || raw.value.Null? || (raw.value.People? && |raw.value.ids| <= 10000 && None !in raw.value.ids))
  }

  lemma ScalarFits(kind: OpKind, name: string, v: Value)
    requires name in USER_NAMES
    ensures BuildScalarOp(kind, AttrOf(name), v).Ok? <==> Fits(name, v)
  {
    AttributeNames();
    if v.Text? {
      LowerSpelling(v.text, "true");
      LowerSpelling(v.text, "false");
    }
    hide AttrOf, Lower, SameText;
  }

  /** Attributes the handlers do not know take any value. */
  lemma OthersFit(kind: OpKind, key: string, v: Value)
    requires forall name :: name in USER_NAMES ==> AttrOf(key) != AttrOf(name)
    ensures BuildScalarOp(kind, AttrOf(key), v).Ok?
  {
    AttributeNames();
    hide AttrOf;
    assert "active" in USER_NAMES && "username" in USER_NAMES && "externalid" in USER_NAMES && "displayname" in USER_NAMES && "emails" in USER_NAMES;
  }

  lemma ObjectFits(kind: OpKind, fields: map<string, Value>)
    ensures BuildsAll(kind, fields)
      <==> forall k, name :: k in fields && name in USER_NAMES && SameText(k, name) ==> Fits(name, fields[k])
  {
    hide BuildScalarOp, AttrOf, SameText, Fits, KeyAttr;
    forall k, name | k in fields && name in USER_NAMES && SameText(k, name)
      ensures BuildScalarOp(kind, KeyAttr(k), fields[k]).Ok? <==> Fits(name, fields[k])
    {
      KeysOfName(k, name);
      ScalarFits(kind, name, fields[k]);
    }
    forall k | k in fields && forall name :: name in USER_NAMES ==> !SameText(k, name)
      ensures BuildScalarOp(kind, KeyAttr(k), fields[k]).Ok?
    {
      forall name | name in USER_NAMES ensures AttrOf(Lower(k)) != AttrOf(name) {
        KeysOfName(k, name);
        KeyAttrIs(k);
      }
      KeyAttrIs(k);
      OthersFit(kind, Lower(k), fields[k]);
    }
  }

  lemma KeyAttrIs(k: string)
    ensures KeyAttr(k) == AttrOf(Lower(k))
  {
  }

  lemma FlatFits(kind: OpKind, raw: RawOp)
    requires !Expands(raw) && KindOf(raw.op) == Some(kind) && !raw.path.NoPath?
    ensures FlatOp(kind, raw.path, raw.value).Ok? <==> Acceptable(raw)
  {
    OpNames(raw.op);
    RemovesIs(raw);
    hide SameText, KindOf, Removes, BuildsAll, Fits;
    if raw.path.Attribute? {
      var name := raw.path.name;
      AttributeNames();
      AttrInjective(name, "members");
      if name in USER_NAMES {
        ScalarFits(kind, name, raw.value);
        assert name != "members";
      } else {
        forall other | other in USER_NAMES ensures AttrOf(name) != AttrOf(other) { AttrInjective(name, other); }
        OthersFit(kind, name, raw.value);
      }
      hide AttrOf, BuildScalarOp;
      if AsPeople(raw.value).Some? {
        IdsValidIff(AsPeople(raw.value).value);
      }
      hide ValidIds;
    }
  }

  lemma IdsValidIff(ids: seq<Option<Id>>)
    ensures ValidIds(ids).Some? <==> None !in ids
  {
    hide ValidIds;
    if None in ids {
      var i :| 0 <= i < |ids| && ids[i] == None;
    }
  }

  /** Exactly the acceptable operations pass. */
  lemma AcceptedIff(raw: RawOp)
    ensures WellFormedOp(raw) <==> Acceptable(raw)
  {
    hide FlatOp, BuildsAll, SameText, KindOf, Fits;
    OpNames(raw.op);
    RemovesIs(raw);
    if KindOf(raw.op).Some? {
      var kind := KindOf(raw.op).value;
      assert kind == Add || kind == Replace || kind == Remove;
      if Expands(raw) {
        ObjectFits(kind, raw.value.fields);
      } else if raw.path.NoPath? {
        assert raw.path == NoPath && (raw.value.Object? ==> raw.value.fields == map[]);
        PathlessRest(kind, raw.value);
      } else {
        FlatFits(kind, raw);
      }
    } else {
      UnknownVerb(raw.op);
    }
  }

  lemma PathlessRest(kind: OpKind, v: Value)
    ensures FlatOp(kind, NoPath, v).Ok?
  {
  }

  lemma UnknownVerb(op: string)
    ensures KindOf(op).None? ==> !SameText(op, "add") && !SameText(op, "replace") && !SameText(op, "remove")
  {
    hide KindOf;
    OpNames(op);
  }
}
