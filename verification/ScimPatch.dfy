/**
 * SCIM PATCH (section 3.5.2 of RFC 7644): normalising a request into flat
 * operations, and folding those over a stored user or group.
 */
module ScimPatch {
  import opened Common
  import opened ScimTables
  import opened ScimReconcile

  datatype OpKind = Add | Replace | Remove

  /** A decoded JSON value, as far as the handlers tell values apart. */
  datatype Value =
    | NoValue
    | Null
    | Text(text: string)
    | Flag(flag: bool)
    | Mail(primary: string)
    | People(ids: seq<Option<Id>>)
    | Object(fields: map<string, Value>)
    | OtherValue

  /** The lower-cased path, with the two bracket forms some providers send. */
  datatype Path = NoPath | Attribute(name: string) | BracketMember(id: Option<Id>) | BracketEmail

  datatype RawOp = RawOp(op: string, path: Path, value: Value)

  /** One flat operation. */
  datatype Op = Op(kind: OpKind, attribute: Attr, text: Option<string>, flag: Option<bool>, ids: seq<Id>, removeAll: bool)

  /** The attributes the handlers know, by their lower-cased names. */
  datatype Attr = ActiveAttr | UserNameAttr | ExternalIdAttr | DisplayNameAttr | EmailsAttr | MembersAttr | UnknownAttr(name: string)

  function AttrOf(name: string): Attr {
    if name == "active" then ActiveAttr
    else if name == "username" then UserNameAttr
    else if name == "externalid" then ExternalIdAttr
    else if name == "displayname" then DisplayNameAttr
    else if name == "emails" then EmailsAttr
    else if name == "members" then MembersAttr
    else UnknownAttr(name)
  }

  lemma AttrInjective(a: string, b: string)
    ensures AttrOf(a) == AttrOf(b) ==> a == b
  {
  }

  const MAX_PATCH_OPERATIONS := 1000
  const MAX_MEMBERS_PER_REQUEST := 10000

  function Scalar(kind: OpKind, attribute: Attr, text: Option<string>, flag: Option<bool>): Op {
    Op(kind, attribute, text, flag, [], false)
  }

  function KindOf(op: string): Option<OpKind> {
    var lower := Lower(op);
    if lower == "add" then Some(Add) else if lower == "replace" then Some(Replace) else if lower == "remove" then Some(Remove) else None
  }

  /** Booleans also come as the strings "true" and "false" in any case; null leaves the decoded value at false. */
  function AsFlag(v: Value): Option<bool> {
    match v
    case Flag(b) => Some(b)
    case Null => Some(false)
    case Text(s) => if Lower(s) == "true" then Some(true) else if Lower(s) == "false" then Some(false) else None
    case _ => None
  }

  function AsMail(v: Value): Option<string> {
    match v
    case Mail(p) => Some(p)
    case Text(s) => Some(s)
    case Null => Some("")
    case _ => None
  }

  /** Null decodes as the empty string. */
  function AsText(v: Value): Option<string> {
    match v
    case Text(s) => Some(s)
    case Null => Some("")
    case _ => None
  }

  /** Null decodes as an empty list. */
  function AsPeople(v: Value): Option<seq<Option<Id>>> {
    match v
    case People(ids) => Some(ids)
    case Null => Some([])
    case _ => None
  }

  /** An operation on one attribute; unknown attributes give none, malformed values are an error. */
  function BuildScalarOp(kind: OpKind, attribute: Attr, v: Value): Result<Option<Op>, ()> {
    if v.NoValue? then Ok(Some(Scalar(kind, attribute, None, None)))
    else match attribute
      case ActiveAttr =>
        if AsFlag(v).Some? then Ok(Some(Scalar(kind, attribute, None, AsFlag(v)))) else Err(())
      case UserNameAttr => BuildText(kind, attribute, v)
      case DisplayNameAttr => BuildText(kind, attribute, v)
      case ExternalIdAttr => BuildText(kind, attribute, v)
      case EmailsAttr =>
        (match AsMail(v)
         case None => Err(())
         case Some(m) => Ok(Some(Scalar(kind, attribute, if m == "" then None else Some(m), None))))
      case _ => Ok(None)
  }

  function BuildText(kind: OpKind, attribute: Attr, v: Value): Result<Option<Op>, ()> {
    if AsText(v).Some? then Ok(Some(Scalar(kind, attribute, AsText(v), None))) else Err(())
  }

  function ValidIds(ids: seq<Option<Id>>): (r: Option<seq<Id>>)
    ensures r.Some? ==> |r.value| == |ids| && forall i :: 0 <= i < |ids| ==> ids[i] == Some(r.value[i])
    ensures r.None? ==> exists i :: 0 <= i < |ids| && ids[i].None?
  {
    if ids == [] then Some([])
    else if ids[|ids| - 1].None? then None
    else match ValidIds(ids[..|ids| - 1])
      case None => None
      case Some(rest) => Some(rest + [ids[|ids| - 1].value])
  }

  /** A raw operation that is not a pathless object gives at most one flat operation. */
  function FlatOp(kind: OpKind, path: Path, v: Value): Result<Option<Op>, ()> {
    match path
    case BracketMember(id) =>
      if kind != Remove || id.None? then Err(()) else Ok(Some(Op(Remove, MembersAttr, None, None, [id.value], false)))
    case NoPath => Ok(None)
    case BracketEmail =>
      if v.NoValue? then Ok(Some(Scalar(kind, EmailsAttr, None, None)))
      else if AsText(v).Some? then Ok(Some(Scalar(kind, EmailsAttr, AsText(v), None)))
      else Err(())
    case Attribute(name) =>
      if AttrOf(name) == MembersAttr && kind == Remove && v.NoValue? then Ok(Some(Op(Remove, MembersAttr, None, None, [], true)))
      else if AttrOf(name) == MembersAttr && !v.NoValue? then
        (if AsPeople(v).None? || |AsPeople(v).value| > MAX_MEMBERS_PER_REQUEST then Err(())
         else match ValidIds(AsPeople(v).value)
           case None => Err(())
           case Some(ids) => Ok(Some(Op(kind, MembersAttr, None, None, ids, false))))
      else BuildScalarOp(kind, AttrOf(name), v)
  }

  predicate Expands(raw: RawOp) {
    raw.path.NoPath? && raw.value.Object? && raw.value.fields != map[]
  }

  // -------------------------------------------------------- expanding pathless objects

  predicate BuildsAll(kind: OpKind, fields: map<string, Value>) {
    forall k :: k in fields ==> BuildScalarOp(kind, KeyAttr(k), fields[k]).Ok?
  }

  /** The keys of an object, each once, in the order in which the runtime happens to walk them. */
  ghost predicate Walk(order: seq<string>, keys: set<string>) {
    Distinct(order) && forall k :: k in order <==> k in keys
  }

  /** The attribute a key means, whatever its case. */
  function KeyAttr(key: string): Attr {
    AttrOf(Lower(key))
  }

  /** The operation of one key, if its attribute is known. */
  function KeyOps(kind: OpKind, key: string, v: Value): (ops: seq<Op>)
    ensures |ops| <= 1 && forall op :: op in ops ==> op.attribute == KeyAttr(key)
  {
    match BuildScalarOp(kind, KeyAttr(key), v)
    case Err(_) => []
    case Ok(None) => []
    case Ok(Some(op)) => [op]
  }

  function ObjectOps(kind: OpKind, fields: map<string, Value>, order: seq<string>): seq<Op>
    requires forall k :: k in order ==> k in fields
    decreases |order|
  {
    if order == [] then []
    else
      var k := order[|order| - 1];
      assert k in order;
      ObjectOps(kind, fields, order[..|order| - 1]) + KeyOps(kind, k, fields[k])
  }

  lemma NoKeys(kind: OpKind, fields: map<string, Value>, keys: seq<string>)
    ensures ObjectOps(kind, fields, keys[..0]) == []
  {
  }

  lemma OneMoreKey(kind: OpKind, fields: map<string, Value>, keys: seq<string>, i: nat)
    requires i < |keys| && forall k :: k in keys ==> k in fields
    ensures keys[i] in fields && (forall k :: k in keys[..i + 1] ==> k in fields) && (forall k :: k in keys[..i] ==> k in fields)
    ensures ObjectOps(kind, fields, keys[..i + 1]) == ObjectOps(kind, fields, keys[..i]) + KeyOps(kind, keys[i], fields[keys[i]])
  {
    hide KeyOps;
    assert keys[i] in keys && keys[..i + 1][..i] == keys[..i];
  }

  /** One operation per known attribute, in the order in which the runtime walks the object. */
  method ExpandObject(kind: OpKind, fields: map<string, Value>) returns (r: Result<seq<Op>, ()>)
    ensures r.Ok? <==> BuildsAll(kind, fields)
    ensures r.Ok? ==> exists order :: Walk(order, fields.Keys) && r.value == ObjectOps(kind, fields, order)
  {
    hide BuildScalarOp, AttrOf, Lower, ObjectOps, Distinct;
    var keys := Rows(fields.Keys);
    var ops: seq<Op> := [];
    NoKeys(kind, fields, keys);
    for i := 0 to |keys|
      invariant forall k :: k in keys[..i] ==> BuildScalarOp(kind, KeyAttr(k), fields[k]).Ok?
      invariant ops == ObjectOps(kind, fields, keys[..i])
    {
      var k := keys[i];
      assert k in keys && keys[..i + 1] == keys[..i] + [k];
      OneMoreKey(kind, fields, keys, i);
      var built := BuildScalarOp(kind, AttrOf(Lower(k)), fields[k]);
      if built.Err? {
        return Err(());
      }
      if built.value.Some? {
        ops := ops + [built.value.value];
      }
    }
    assert keys[..|keys|] == keys;
    assert Walk(keys, fields.Keys);
    r := Ok(ops);
  }

  // ------------------------------------------------------------- normalising requests

  /** One raw operation became these flat ones. */
  ghost predicate Expansion(raw: RawOp, ops: seq<Op>) {
    && KindOf(raw.op).Some?
    && var kind := KindOf(raw.op).value;
       if Expands(raw) then
         && BuildsAll(kind, raw.value.fields)
         && exists order :: Walk(order, raw.value.fields.Keys) && ops == ObjectOps(kind, raw.value.fields, order)
       else
         FlatOp(kind, raw.path, raw.value).Ok? &&
         ops == (match FlatOp(kind, raw.path, raw.value).value case None => [] case Some(op) => [op])
  }

  predicate WellFormedOp(raw: RawOp) {
    && KindOf(raw.op).Some?
    && var kind := KindOf(raw.op).value;
       if Expands(raw) then BuildsAll(kind, raw.value.fields) else FlatOp(kind, raw.path, raw.value).Ok?
  }

  /** The flat operations are those of the raw ones, in the request's order. */
  ghost predicate Normalizes(raws: seq<RawOp>, ops: seq<Op>)
    decreases |raws|
  {
    if raws == [] then ops == []
    else exists n :: 0 <= n <= |ops| && Normalizes(raws[..|raws| - 1], ops[..n]) && Expansion(raws[|raws| - 1], ops[n..])
  }

  method NormalizePatchOps(hasSchema: bool, raws: seq<RawOp>) returns (r: Result<seq<Op>, ()>)
    ensures r.Ok? <==> hasSchema && 1 <= |raws| <= MAX_PATCH_OPERATIONS && forall raw :: raw in raws ==> WellFormedOp(raw)
    ensures r.Ok? ==> Normalizes(raws, r.value)
  {
    hide FlatOp, BuildsAll, ObjectOps, KindOf, Walk;
    if !hasSchema || |raws| == 0 || |raws| > MAX_PATCH_OPERATIONS {
      return Err(());
    }
    var ops: seq<Op> := [];
    assert raws[..0] == [];
    for i := 0 to |raws|
      invariant Normalizes(raws[..i], ops) && forall raw :: raw in raws[..i] ==> WellFormedOp(raw)
    {
      var raw := raws[i];
      assert raw in raws && raws[..i + 1] == raws[..i] + [raw] && raws[..i + 1][..i] == raws[..i];
      var kind := KindOf(raw.op);
      if kind.None? {
        return Err(());
      }
      var more: seq<Op>;
      if Expands(raw) {
        var expanded := ExpandObject(kind.value, raw.value.fields);
        if expanded.Err? {
          return Err(());
        }
        more := expanded.value;
      } else {
        var flat := FlatOp(kind.value, raw.path, raw.value);
        if flat.Err? {
          return Err(());
        }
        more := match flat.value case None => [] case Some(op) => [op];
      }
      assert (ops + more)[..|ops|] == ops && (ops + more)[|ops|..] == more;
      ops := ops + more;
    }
    assert raws[..|raws|] == raws;
    r := Ok(ops);
  }

  // ------------------------------------------------------------------- folding users

  /** What a user PATCH has computed so far; None is a rejected request. */
  datatype UserEdit = UserEdit(
    active: bool, userName: string, externalId: Option<string>, displayName: Option<string>, email: Option<string>)

  /** A PATCH starts from the record as it was read; the shared profile's fields only change when they are sent. */
  function UserEditOf(row: ScimRow): UserEdit {
    UserEdit(row.active, row.userName, row.externalId, None, None)
  }

  /** The record to be written back. */
  function PatchedRow(row: ScimRow, edit: UserEdit): ScimRow {
    row.(active := edit.active, userName := edit.userName, externalId := edit.externalId)
  }

  function SentEmail(edit: UserEdit): string {
    if edit.email.Some? then edit.email.value else ""
  }

  predicate IsSpace(c: char) {
    || c in {' ', '\t', '\n', '\r', '\U{b}', '\U{c}', '\U{85}', '\U{a0}', '\U{1680}', '\U{2028}', '\U{2029}', '\U{202f}', '\U{205f}', '\U{3000}'}
    || '\U{2000}' <= c <= '\U{200a}'
  }

  predicate Blank(s: string) {
    forall i :: 0 <= i < |s| ==> IsSpace(s[i])
  }

  function EditUser(edit: Option<UserEdit>, op: Op): Option<UserEdit> {
    if edit.None? then None
    else if op.attribute == ActiveAttr then
      (if op.flag.Some? then Some(edit.value.(active := op.flag.value)) else edit)
    else if op.attribute == UserNameAttr then
      (if op.kind == Remove || (op.text.Some? && Blank(op.text.value)) then None
       else if op.text.Some? then Some(edit.value.(userName := op.text.value)) else edit)
    else if op.attribute == ExternalIdAttr then
      (if op.kind == Remove || op.text == Some("") then Some(edit.value.(externalId := None))
       else if op.text.Some? then Some(edit.value.(externalId := op.text)) else edit)
    else if op.attribute == DisplayNameAttr then
      (if op.kind == Remove then Some(edit.value.(displayName := Some("")))
       else if op.text.Some? then Some(edit.value.(displayName := op.text)) else edit)
    else if op.attribute == EmailsAttr then
      (if op.text.Some? && op.text.value != "" then Some(edit.value.(email := op.text)) else edit)
    else edit
  }

  /** What a group PATCH has computed so far. */
  datatype GroupEdit = GroupEdit(name: string, externalId: Option<string>, members: set<Id>)

  function EditMembers(members: set<Id>, op: Op): set<Id> {
    match op.kind
    case Add => members + AsSet(op.ids)
    case Remove => (if op.removeAll then {} else members) - AsSet(op.ids)
    case Replace => AsSet(op.ids)
  }

  function EditGroup(edit: Option<GroupEdit>, op: Op): Option<GroupEdit> {
    if edit.None? then None
    else if op.attribute == DisplayNameAttr then
      (if op.kind == Remove || (op.text.Some? && Blank(op.text.value)) then None
       else if op.text.Some? then Some(edit.value.(name := op.text.value)) else edit)
    else if op.attribute == ExternalIdAttr then
      (if op.kind == Remove || op.text == Some("") then Some(edit.value.(externalId := None))
       else if op.text.Some? then Some(edit.value.(externalId := op.text)) else edit)
    else if op.attribute == MembersAttr then Some(edit.value.(members := EditMembers(edit.value.members, op)))
    else edit
  }

  function Fold<S>(edit: (Option<S>, Op) -> Option<S>, start: Option<S>, ops: seq<Op>): Option<S>
    decreases |ops|
  {
    if ops == [] then start else edit(Fold(edit, start, ops[..|ops| - 1]), ops[|ops| - 1])
  }

  // ---------------------------------------------------------- the order does not matter

  /** Operations on different attributes commute. */
  ghost predicate Commutes<S(!new)>(edit: (Option<S>, Op) -> Option<S>) {
    forall s, a: Op, b: Op :: a.attribute != b.attribute ==> edit(edit(s, a), b) == edit(edit(s, b), a)
  }

  lemma UserEditsCommute()
    ensures Commutes(EditUser)
  {
    hide Blank;
  }

  lemma GroupEditsCommute()
    ensures Commutes(EditGroup)
  {
    hide Blank, EditMembers;
  }

  lemma {:induction false} FoldAppend<S>(edit: (Option<S>, Op) -> Option<S>, start: Option<S>, a: seq<Op>, b: seq<Op>)
    ensures Fold(edit, start, a + b) == Fold(edit, Fold(edit, start, a), b)
    decreases |b|
  {
    if b == [] {
      assert a + b == a;
    } else {
      var init := b[..|b| - 1];
      assert (a + b)[..|a + b| - 1] == a + init;
      FoldAppend(edit, start, a, init);
    }
  }

  lemma CommuteAt<S(!new)>(edit: (Option<S>, Op) -> Option<S>, s: Option<S>, a: Op, b: Op)
    requires Commutes(edit) && a.attribute != b.attribute
    ensures edit(edit(s, a), b) == edit(edit(s, b), a)
  {
  }

  /** One key's operation, if it has one. */
  function KeyStep<S>(edit: (Option<S>, Op) -> Option<S>, s: Option<S>, kind: OpKind, key: string, v: Value): Option<S> {
    Fold(edit, s, KeyOps(kind, key, v))
  }

  lemma ObjectStep<S>(edit: (Option<S>, Op) -> Option<S>, s: Option<S>, kind: OpKind, fields: map<string, Value>, order: seq<string>)
    requires order != [] && forall k :: k in order ==> k in fields
    ensures order[|order| - 1] in fields
    ensures var k := order[|order| - 1];
      Fold(edit, s, ObjectOps(kind, fields, order)) ==
      KeyStep(edit, Fold(edit, s, ObjectOps(kind, fields, order[..|order| - 1])), kind, k, fields[k])
  {
    var k := order[|order| - 1];
    assert k in order;
    FoldAppend(edit, s, ObjectOps(kind, fields, order[..|order| - 1]), KeyOps(kind, k, fields[k]));
  }

  ghost predicate KeysCommute<S(!new)>(edit: (Option<S>, Op) -> Option<S>, kind: OpKind, fields: map<string, Value>) {
    forall s, k, l :: k in fields && l in fields && k != l ==>
      KeyStep(edit, KeyStep(edit, s, kind, k, fields[k]), kind, l, fields[l]) ==
      KeyStep(edit, KeyStep(edit, s, kind, l, fields[l]), kind, k, fields[k])
  }

  lemma KeysCommuteAt<S(!new)>(edit: (Option<S>, Op) -> Option<S>, s: Option<S>, kind: OpKind, fields: map<string, Value>, k: string, l: string)
    requires KeysCommute(edit, kind, fields) && k in fields && l in fields && k != l
    ensures KeyStep(edit, KeyStep(edit, s, kind, k, fields[k]), kind, l, fields[l]) ==
            KeyStep(edit, KeyStep(edit, s, kind, l, fields[l]), kind, k, fields[k])
  {
  }

  function Without(order: seq<string>, i: nat): seq<string>
    requires i < |order|
  {
    order[..i] + order[i + 1..]
  }

  lemma WithoutIsWalk(order: seq<string>, keys: set<string>, i: nat)
    requires Walk(order, keys) && i < |order|
    ensures Walk(Without(order, i), keys - {order[i]})
  {
    var rest := Without(order, i);
    forall k | k in keys && k != order[i] ensures k in rest {
      var j :| 0 <= j < |order| && order[j] == k;
      assert rest[if j < i then j else j - 1] == k;
    }
  }

  /** The key at i may as well come last. */
  lemma {:induction false} MoveToEnd<S(!new)>(
      edit: (Option<S>, Op) -> Option<S>, s: Option<S>, kind: OpKind, fields: map<string, Value>, order: seq<string>, i: nat)
    requires KeysCommute(edit, kind, fields) && Distinct(order) && i < |order| && forall k :: k in order ==> k in fields
    ensures order[i] in fields && forall k :: k in Without(order, i) ==> k in fields
    ensures Fold(edit, s, ObjectOps(kind, fields, order)) ==
            KeyStep(edit, Fold(edit, s, ObjectOps(kind, fields, Without(order, i))), kind, order[i], fields[order[i]])
    decreases |order|
  {
    hide KeysCommute, KeyStep, ObjectOps;
    var last := |order| - 1;
    var init := order[..last];
    ObjectStep(edit, s, kind, fields, order);
    assert order[i] in order;
    if i == last {
      assert Without(order, i) == init;
    } else {
      MoveToEnd(edit, s, kind, fields, init, i);
      assert Without(order, i)[..last - 1] == Without(init, i) && Without(order, i)[last - 1] == order[last];
      ObjectStep(edit, s, kind, fields, Without(order, i));
      KeysCommuteAt(edit, Fold(edit, s, ObjectOps(kind, fields, Without(init, i))), kind, fields, order[i], order[last]);
    }
  }

  lemma FirstIn(q: seq<string>)
    ensures q == [] || q[0] in q
  {
  }

  /** Keys whose operations commute may be walked in any order. */
  lemma {:induction false} WalksAgree<S(!new)>(
      edit: (Option<S>, Op) -> Option<S>, s: Option<S>, kind: OpKind, fields: map<string, Value>, keys: set<string>, p: seq<string>, q: seq<string>)
    requires KeysCommute(edit, kind, fields) && keys <= fields.Keys && Walk(p, keys) && Walk(q, keys)
    ensures Fold(edit, s, ObjectOps(kind, fields, p)) == Fold(edit, s, ObjectOps(kind, fields, q))
    decreases |p|
  {
    hide KeysCommute, KeyStep, ObjectOps;
    if p == [] {
      FirstIn(q);
    } else {
      var k := p[|p| - 1];
      assert k in p;
      var i :| 0 <= i < |q| && q[i] == k;
      WithoutIsWalk(p, keys, |p| - 1);
      WithoutIsWalk(q, keys, i);
      assert Without(p, |p| - 1) == p[..|p| - 1];
      ObjectStep(edit, s, kind, fields, p);
      MoveToEnd(edit, s, kind, fields, q, i);
      WalksAgree(edit, s, kind, fields, keys - {k}, p[..|p| - 1], Without(q, i));
    }
  }

  // ------------------------------------------------------ exactly when the order matters

  /** No two keys spell one of these attributes. */
  predicate OneSpelling(keys: set<string>, attributes: set<Attr>) {
    forall k, l :: k in keys && l in keys && Lower(k) == Lower(l) && KeyAttr(k) in attributes ==> k == l
  }

  /** The attributes of a user whose last operation counts, and those of a group. */
  function UserAttrs(kind: OpKind): set<Attr> {
    if kind == Remove then {ActiveAttr, EmailsAttr} else {ActiveAttr, UserNameAttr, ExternalIdAttr, DisplayNameAttr, EmailsAttr}
  }

  function GroupAttrs(kind: OpKind): set<Attr> {
    if kind == Remove then {} else {DisplayNameAttr, ExternalIdAttr}
  }

  /** Removing a user name is refused, in any order. */
  predicate RemovesUserName(kind: OpKind, keys: set<string>) {
    kind == Remove && exists k :: k in keys && KeyAttr(k) == UserNameAttr
  }

  predicate UserOrderFree(kind: OpKind, keys: set<string>) {
    OneSpelling(keys, UserAttrs(kind)) || RemovesUserName(kind, keys)
  }

  predicate GroupOrderFree(kind: OpKind, keys: set<string>) {
    OneSpelling(keys, GroupAttrs(kind))
  }

  /** Every walk over the object gives one result. */
  ghost predicate AnyWalkAlike<S(!new)>(edit: (Option<S>, Op) -> Option<S>, s: Option<S>, kind: OpKind, fields: map<string, Value>) {
    forall p, q :: Walk(p, fields.Keys) && Walk(q, fields.Keys) ==>
      Fold(edit, s, ObjectOps(kind, fields, p)) == Fold(edit, s, ObjectOps(kind, fields, q))
  }

  lemma KeyStepIs<S>(edit: (Option<S>, Op) -> Option<S>, s: Option<S>, kind: OpKind, key: string, v: Value)
    ensures KeyStep(edit, s, kind, key, v) == var ops := KeyOps(kind, key, v); if ops == [] then s else edit(s, ops[0])
  {
    hide BuildScalarOp;
    var ops := KeyOps(kind, key, v);
    if ops != [] {
      assert ops == [ops[0]];
      OneOp(edit, s, ops[0]);
    }
  }

  lemma OneOp<S>(edit: (Option<S>, Op) -> Option<S>, s: Option<S>, op: Op)
    ensures Fold(edit, s, [op]) == edit(s, op)
  {
    assert [op][..0] == [];
    assert Fold(edit, s, []) == s;
  }

  lemma {:induction false} KeysOfAUserCommute(kind: OpKind, fields: map<string, Value>)
    requires OneSpelling(fields.Keys, UserAttrs(kind))
    ensures KeysCommute(EditUser, kind, fields)
  {
    forall s, k, l | k in fields && l in fields && k != l
      ensures KeyStep(EditUser, KeyStep(EditUser, s, kind, k, fields[k]), kind, l, fields[l]) ==
              KeyStep(EditUser, KeyStep(EditUser, s, kind, l, fields[l]), kind, k, fields[k])
    {
      UserKeysCommute(s, kind, k, fields[k], l, fields[l]);
    }
  }

  lemma UserKeysCommute(s: Option<UserEdit>, kind: OpKind, k: string, v: Value, l: string, w: Value)
    requires k != l && (Lower(k) == Lower(l) ==> KeyAttr(k) !in UserAttrs(kind))
    ensures KeyStep(EditUser, KeyStep(EditUser, s, kind, k, v), kind, l, w) == KeyStep(EditUser, KeyStep(EditUser, s, kind, l, w), kind, k, v)
  {
    hide Blank, Lower, AttrOf, KeyStep;
    var a, b := KeyOps(kind, k, v), KeyOps(kind, l, w);
    KeyStepIs(EditUser, s, kind, k, v);
    KeyStepIs(EditUser, s, kind, l, w);
    KeyStepIs(EditUser, KeyStep(EditUser, s, kind, k, v), kind, l, w);
    KeyStepIs(EditUser, KeyStep(EditUser, s, kind, l, w), kind, k, v);
    if a != [] && b != [] {
      if a[0].attribute != b[0].attribute {
        UserEditsCommute();
        CommuteAt(EditUser, s, a[0], b[0]);
      } else {
        AttrInjective(Lower(k), Lower(l));
      }
    }
  }

  lemma GroupKeysCommute(s: Option<GroupEdit>, kind: OpKind, k: string, v: Value, l: string, w: Value)
    requires k != l && (Lower(k) == Lower(l) ==> KeyAttr(k) !in GroupAttrs(kind))
    ensures KeyStep(EditGroup, KeyStep(EditGroup, s, kind, k, v), kind, l, w) == KeyStep(EditGroup, KeyStep(EditGroup, s, kind, l, w), kind, k, v)
  {
    hide Blank, Lower, AttrOf, KeyStep, EditMembers;
    var a, b := KeyOps(kind, k, v), KeyOps(kind, l, w);
    KeyStepIs(EditGroup, s, kind, k, v);
    KeyStepIs(EditGroup, s, kind, l, w);
    KeyStepIs(EditGroup, KeyStep(EditGroup, s, kind, k, v), kind, l, w);
    KeyStepIs(EditGroup, KeyStep(EditGroup, s, kind, l, w), kind, k, v);
    if a != [] && b != [] {
      if a[0].attribute != b[0].attribute {
        GroupEditsCommute();
        CommuteAt(EditGroup, s, a[0], b[0]);
      } else {
        AttrInjective(Lower(k), Lower(l));
      }
    }
  }

  /** Once refused, refused for good. */
  lemma {:induction false} FoldNone<S(!new)>(edit: (Option<S>, Op) -> Option<S>, ops: seq<Op>)
    requires forall op :: edit(None, op) == None
    ensures Fold(edit, None, ops) == None
    decreases |ops|
  {
    if ops != [] {
      FoldNone(edit, ops[..|ops| - 1]);
    }
  }

  lemma UserNameKeyRefused(user: Option<UserEdit>, key: string, v: Value)
    requires BuildScalarOp(Remove, KeyAttr(key), v).Ok? && KeyAttr(key) == UserNameAttr
    ensures KeyStep(EditUser, user, Remove, key, v) == None
  {
    hide KeyAttr, Blank, KeyStep;
    KeyStepIs(EditUser, user, Remove, key, v);
  }

  lemma RefusedKeyStep(key: string, v: Value)
    ensures KeyStep(EditUser, None, Remove, key, v) == None
  {
    hide KeyOps;
    FoldNone(EditUser, KeyOps(Remove, key, v));
  }

  lemma {:induction false} RemovedUserNameRefused(user: Option<UserEdit>, fields: map<string, Value>, order: seq<string>, key: string)
    requires BuildsAll(Remove, fields) && key in order && KeyAttr(key) == UserNameAttr && forall k :: k in order ==> k in fields
    ensures Fold(EditUser, user, ObjectOps(Remove, fields, order)) == None
    decreases |order|
  {
    hide KeyAttr, EditUser, KeyStep, ObjectOps, BuildScalarOp;
    var init, last := order[..|order| - 1], order[|order| - 1];
    assert last in order;
    ObjectStep(EditUser, user, Remove, fields, order);
    if key in init {
      RemovedUserNameRefused(user, fields, init, key);
      RefusedKeyStep(last, fields[last]);
    } else {
      UserNameKeyRefused(Fold(EditUser, user, ObjectOps(Remove, fields, init)), last, fields[last]);
    }
  }

  /** Under the condition every object of a user PATCH means one thing. */
  lemma UserWalksAgree(user: Option<UserEdit>, kind: OpKind, fields: map<string, Value>)
    requires UserOrderFree(kind, fields.Keys) && BuildsAll(kind, fields)
    ensures AnyWalkAlike(EditUser, user, kind, fields)
  {
    hide Lower, AttrOf, KeyStep, BuildScalarOp, ObjectOps, EditUser;
    forall p, q | Walk(p, fields.Keys) && Walk(q, fields.Keys)
      ensures Fold(EditUser, user, ObjectOps(kind, fields, p)) == Fold(EditUser, user, ObjectOps(kind, fields, q))
    {
      if RemovesUserName(kind, fields.Keys) {
        var k :| k in fields.Keys && KeyAttr(k) == UserNameAttr;
        RemovedUserNameRefused(user, fields, p, k);
        RemovedUserNameRefused(user, fields, q, k);
      } else {
        KeysOfAUserCommute(kind, fields);
        WalksAgree(EditUser, user, kind, fields, fields.Keys, p, q);
      }
    }
  }

  lemma GroupWalksAgree(group: Option<GroupEdit>, kind: OpKind, fields: map<string, Value>)
    requires GroupOrderFree(kind, fields.Keys)
    ensures AnyWalkAlike(EditGroup, group, kind, fields)
  {
    hide Lower, AttrOf, KeyStep, BuildScalarOp, ObjectOps, EditGroup;
    forall s, k, l | k in fields && l in fields && k != l
      ensures KeyStep(EditGroup, KeyStep(EditGroup, s, kind, k, fields[k]), kind, l, fields[l]) ==
              KeyStep(EditGroup, KeyStep(EditGroup, s, kind, l, fields[l]), kind, k, fields[k])
    {
      GroupKeysCommute(s, kind, k, fields[k], l, fields[l]);
    }
    forall p, q | Walk(p, fields.Keys) && Walk(q, fields.Keys)
      ensures Fold(EditGroup, group, ObjectOps(kind, fields, p)) == Fold(EditGroup, group, ObjectOps(kind, fields, q))
    {
      WalksAgree(EditGroup, group, kind, fields, fields.Keys, p, q);
    }
  }

  /** Two values for an attribute that the handlers tell apart. */
  function Sample(attribute: Attr, first: bool): Value {
    if attribute == ActiveAttr then Flag(first) else Text(if first then "a" else "b")
  }

  /** Key k has the one value, all others the other. */
  function Samples(keys: set<string>, k: string): map<string, Value> {
    map key | key in keys :: Sample(KeyAttr(key), key == k)
  }

  lemma SamplesBuild(kind: OpKind, keys: set<string>, k: string)
    ensures BuildsAll(kind, Samples(keys, k))
  {
    hide Lower, AttrOf;
  }

  /** Some walk over the keys that ends with these two. */
  lemma WalkEndingWith(keys: set<string>, k: string, l: string) returns (order: seq<string>)
    requires k in keys && l in keys && k != l
    ensures Walk(order + [k, l], keys) && Walk(order + [l, k], keys) && forall key :: key in order ==> key in keys
  {
    var rest := keys - {k, l};
    order := [];
    while rest != {}
      invariant forall key :: key in keys <==> key in order || key in rest || key == k || key == l
      invariant Distinct(order) && forall key :: key in order ==> key !in rest && key != k && key != l
      invariant k !in rest && l !in rest
      decreases |rest|
    {
      var key :| key in rest;
      order, rest := order + [key], rest - {key};
    }
  }

  lemma SampleUserAccepted(user: UserEdit, kind: OpKind, key: string, first: bool)
    requires kind == Remove ==> KeyAttr(key) != UserNameAttr
    ensures KeyStep(EditUser, Some(user), kind, key, Sample(KeyAttr(key), first)).Some?
  {
    hide Lower, AttrOf, KeyStep;
    KeyStepIs(EditUser, Some(user), kind, key, Sample(KeyAttr(key), first));
    assert !Blank("a") && !Blank("b") by { assert "a"[0] == 'a' && "b"[0] == 'b'; }
  }

  lemma {:induction false} SampledUserAccepted(user: UserEdit, kind: OpKind, keys: set<string>, k: string, order: seq<string>)
    requires (forall key :: key in order ==> key in keys) && !RemovesUserName(kind, keys)
    ensures Fold(EditUser, Some(user), ObjectOps(kind, Samples(keys, k), order)).Some?
    decreases |order|
  {
    hide KeyAttr, KeyStep, BuildScalarOp, Sample, EditUser;
    if order != [] {
      var init, last := order[..|order| - 1], order[|order| - 1];
      assert last in order;
      SampledUserAccepted(user, kind, keys, k, init);
      ObjectStep(EditUser, Some(user), kind, Samples(keys, k), order);
      var before := Fold(EditUser, Some(user), ObjectOps(kind, Samples(keys, k), init));
      SampleUserAccepted(before.value, kind, last, last == k);
    }
  }

  lemma SampleGroupAccepted(group: GroupEdit, kind: OpKind, key: string, first: bool)
    requires kind != Remove
    ensures KeyStep(EditGroup, Some(group), kind, key, Sample(KeyAttr(key), first)).Some?
  {
    hide Lower, AttrOf, KeyStep, EditMembers;
    KeyStepIs(EditGroup, Some(group), kind, key, Sample(KeyAttr(key), first));
    assert !Blank("a") && !Blank("b") by { assert "a"[0] == 'a' && "b"[0] == 'b'; }
  }

  lemma {:induction false} SampledGroupAccepted(group: GroupEdit, kind: OpKind, keys: set<string>, k: string, order: seq<string>)
    requires (forall key :: key in order ==> key in keys) && kind != Remove
    ensures Fold(EditGroup, Some(group), ObjectOps(kind, Samples(keys, k), order)).Some?
    decreases |order|
  {
    hide KeyAttr, KeyStep, BuildScalarOp, Sample, EditGroup;
    if order != [] {
      var init, last := order[..|order| - 1], order[|order| - 1];
      assert last in order;
      SampledGroupAccepted(group, kind, keys, k, init);
      ObjectStep(EditGroup, Some(group), kind, Samples(keys, k), order);
      var before := Fold(EditGroup, Some(group), ObjectOps(kind, Samples(keys, k), init));
      SampleGroupAccepted(before.value, kind, last, last == k);
    }
  }

  lemma TwoKeySteps<S>(edit: (Option<S>, Op) -> Option<S>, s: Option<S>, kind: OpKind, fields: map<string, Value>, order: seq<string>, k: string, l: string)
    requires (forall key :: key in order ==> key in fields) && k in fields && l in fields
    ensures forall key :: key in order + [k, l] ==> key in fields
    ensures Fold(edit, s, ObjectOps(kind, fields, order + [k, l])) ==
            KeyStep(edit, KeyStep(edit, Fold(edit, s, ObjectOps(kind, fields, order)), kind, k, fields[k]), kind, l, fields[l])
  {
    hide KeyStep, ObjectOps;
    var both, one := order + [k, l], order + [k];
    assert both[..|both| - 1] == one && one[..|one| - 1] == order;
    ObjectStep(edit, s, kind, fields, both);
    ObjectStep(edit, s, kind, fields, one);
  }

  function SampleOp(kind: OpKind, attribute: Attr, first: bool): Op {
    if attribute == ActiveAttr then Scalar(kind, attribute, None, Some(first))
    else Scalar(kind, attribute, Some(if first then "a" else "b"), None)
  }

  lemma SampleOps(kind: OpKind, key: string, first: bool)
    requires KeyAttr(key) in {ActiveAttr, UserNameAttr, ExternalIdAttr, DisplayNameAttr, EmailsAttr}
    ensures KeyOps(kind, key, Sample(KeyAttr(key), first)) == [SampleOp(kind, KeyAttr(key), first)]
  {
    hide KeyAttr;
  }

  lemma SampleStep<S>(edit: (Option<S>, Op) -> Option<S>, s: Option<S>, kind: OpKind, key: string, first: bool)
    requires KeyAttr(key) in {ActiveAttr, UserNameAttr, ExternalIdAttr, DisplayNameAttr, EmailsAttr}
    ensures KeyStep(edit, s, kind, key, Sample(KeyAttr(key), first)) == edit(s, SampleOp(kind, KeyAttr(key), first))
  {
    hide KeyAttr, KeyOps, Sample, SampleOp;
    SampleOps(kind, key, first);
    KeyStepIs(edit, s, kind, key, Sample(KeyAttr(key), first));
  }

  lemma SampleEditsDiffer(user: UserEdit, group: GroupEdit, kind: OpKind, attribute: Attr)
    ensures var a, b := SampleOp(kind, attribute, true), SampleOp(kind, attribute, false);
      && (attribute in UserAttrs(kind) ==> EditUser(EditUser(Some(user), a), b) != EditUser(EditUser(Some(user), b), a))
      && (attribute in GroupAttrs(kind) ==> EditGroup(EditGroup(Some(group), a), b) != EditGroup(EditGroup(Some(group), b), a))
  {
    assert !Blank("a") && !Blank("b") && "a" != "b" by { assert "a"[0] == 'a' && "b"[0] == 'b'; }
    hide Blank, EditMembers;
  }

  /** A sampled key of a user's attribute has the last word. */
  lemma LastUserKeyCounts(user: UserEdit, kind: OpKind, k: string, l: string)
    requires KeyAttr(k) == KeyAttr(l) && KeyAttr(k) in UserAttrs(kind)
    ensures var a, b := Sample(KeyAttr(k), true), Sample(KeyAttr(l), false);
      KeyStep(EditUser, KeyStep(EditUser, Some(user), kind, k, a), kind, l, b) !=
      KeyStep(EditUser, KeyStep(EditUser, Some(user), kind, l, b), kind, k, a)
  {
    hide KeyAttr, KeyStep, SampleOp, Sample, EditUser;
    SampleStep(EditUser, Some(user), kind, k, true);
    SampleStep(EditUser, Some(user), kind, l, false);
    SampleStep(EditUser, KeyStep(EditUser, Some(user), kind, k, Sample(KeyAttr(k), true)), kind, l, false);
    SampleStep(EditUser, KeyStep(EditUser, Some(user), kind, l, Sample(KeyAttr(l), false)), kind, k, true);
    SampleEditsDiffer(user, GroupEdit("", None, {}), kind, KeyAttr(k));
  }

  lemma LastGroupKeyCounts(group: GroupEdit, kind: OpKind, k: string, l: string)
    requires KeyAttr(k) == KeyAttr(l) && KeyAttr(k) in GroupAttrs(kind)
    ensures var a, b := Sample(KeyAttr(k), true), Sample(KeyAttr(l), false);
      KeyStep(EditGroup, KeyStep(EditGroup, Some(group), kind, k, a), kind, l, b) !=
      KeyStep(EditGroup, KeyStep(EditGroup, Some(group), kind, l, b), kind, k, a)
  {
    hide KeyAttr, KeyStep, SampleOp, Sample, EditGroup;
    SampleStep(EditGroup, Some(group), kind, k, true);
    SampleStep(EditGroup, Some(group), kind, l, false);
    SampleStep(EditGroup, KeyStep(EditGroup, Some(group), kind, k, Sample(KeyAttr(k), true)), kind, l, false);
    SampleStep(EditGroup, KeyStep(EditGroup, Some(group), kind, l, Sample(KeyAttr(l), false)), kind, k, true);
    SampleEditsDiffer(UserEdit(true, "", None, None, None), group, kind, KeyAttr(k));
  }

  /** Two spellings of one attribute: for well-formed values, and any user, the walk decides. */
  lemma TwoSpellingsDecideForUsers(user: UserEdit, kind: OpKind, keys: set<string>, k: string, l: string)
    requires k in keys && l in keys && k != l && Lower(k) == Lower(l) && KeyAttr(k) in UserAttrs(kind) && !RemovesUserName(kind, keys)
    ensures Samples(keys, k).Keys == keys && BuildsAll(kind, Samples(keys, k))
    ensures !AnyWalkAlike(EditUser, Some(user), kind, Samples(keys, k))
  {
    hide Lower, AttrOf, KeyStep, ObjectOps, EditUser, BuildsAll, RemovesUserName;
    var fields := Samples(keys, k);
    SamplesBuild(kind, keys, k);
    var order := WalkEndingWith(keys, k, l);
    SampledUserAccepted(user, kind, keys, k, order);
    var before := Fold(EditUser, Some(user), ObjectOps(kind, fields, order));
    TwoKeySteps(EditUser, Some(user), kind, fields, order, k, l);
    TwoKeySteps(EditUser, Some(user), kind, fields, order, l, k);
    LastUserKeyCounts(before.value, kind, k, l);
  }

  lemma TwoSpellingsDecideForGroups(group: GroupEdit, kind: OpKind, keys: set<string>, k: string, l: string)
    requires k in keys && l in keys && k != l && Lower(k) == Lower(l) && KeyAttr(k) in GroupAttrs(kind)
    ensures Samples(keys, k).Keys == keys && BuildsAll(kind, Samples(keys, k))
    ensures !AnyWalkAlike(EditGroup, Some(group), kind, Samples(keys, k))
  {
    hide Lower, AttrOf, KeyStep, ObjectOps, EditGroup, BuildsAll;
    var fields := Samples(keys, k);
    SamplesBuild(kind, keys, k);
    var order := WalkEndingWith(keys, k, l);
    SampledGroupAccepted(group, kind, keys, k, order);
    var before := Fold(EditGroup, Some(group), ObjectOps(kind, fields, order));
    TwoKeySteps(EditGroup, Some(group), kind, fields, order, k, l);
    TwoKeySteps(EditGroup, Some(group), kind, fields, order, l, k);
    LastGroupKeyCounts(before.value, kind, k, l);
  }

  /** An object with these keys means one thing for every user and all well-formed values. */
  ghost predicate UserKeysAreClear(kind: OpKind, keys: set<string>) {
    forall user, fields: map<string, Value> :: fields.Keys == keys && BuildsAll(kind, fields) ==> AnyWalkAlike(EditUser, Some(user), kind, fields)
  }

  ghost predicate GroupKeysAreClear(kind: OpKind, keys: set<string>) {
    forall group, fields: map<string, Value> :: fields.Keys == keys && BuildsAll(kind, fields) ==> AnyWalkAlike(EditGroup, Some(group), kind, fields)
  }

  /**
   * Exactly when the walk over an object does not matter for users: no attribute whose
   * last operation counts is spelled twice, or the object removes the user name, which
   * is refused anyway.
   */
  lemma UserKeysAreClearIff(kind: OpKind, keys: set<string>)
    ensures UserKeysAreClear(kind, keys) <==> UserOrderFree(kind, keys)
  {
    hide BuildsAll, AnyWalkAlike, Lower, AttrOf, UserAttrs;
    if UserOrderFree(kind, keys) {
      forall user, fields: map<string, Value> | fields.Keys == keys && BuildsAll(kind, fields)
        ensures AnyWalkAlike(EditUser, Some(user), kind, fields)
      {
        UserWalksAgree(Some(user), kind, fields);
      }
    } else {
      var k, l :| k in keys && l in keys && Lower(k) == Lower(l) && KeyAttr(k) in UserAttrs(kind) && k != l;
      TwoSpellingsDecideForUsers(UserEdit(true, "", None, None, None), kind, keys, k, l);
    }
  }

  /** And for groups. */
  lemma GroupKeysAreClearIff(kind: OpKind, keys: set<string>)
    ensures GroupKeysAreClear(kind, keys) <==> GroupOrderFree(kind, keys)
  {
    hide BuildsAll, AnyWalkAlike, Lower, AttrOf, GroupAttrs;
    if GroupOrderFree(kind, keys) {
      forall group, fields: map<string, Value> | fields.Keys == keys && BuildsAll(kind, fields)
        ensures AnyWalkAlike(EditGroup, Some(group), kind, fields)
      {
        GroupWalksAgree(Some(group), kind, fields);
      }
    } else {
      var k, l :| k in keys && l in keys && Lower(k) == Lower(l) && KeyAttr(k) in GroupAttrs(kind) && k != l;
      TwoSpellingsDecideForGroups(GroupEdit("", None, {}), kind, keys, k, l);
    }
  }

  // ------------------------------------------------------------------ whole requests

  /** Every object of the request means one thing, whatever was folded before it. */
  ghost predicate ObjectsAlike<S(!new)>(edit: (Option<S>, Op) -> Option<S>, raws: seq<RawOp>) {
    forall s, raw :: raw in raws && Expands(raw) && WellFormedOp(raw) ==> AnyWalkAlike(edit, s, KindOf(raw.op).value, raw.value.fields)
  }

  lemma ObjectAlikeAt<S(!new)>(edit: (Option<S>, Op) -> Option<S>, s: Option<S>, raws: seq<RawOp>, raw: RawOp, p: seq<Op>, q: seq<Op>)
    requires ObjectsAlike(edit, raws) && raw in raws && Expansion(raw, p) && Expansion(raw, q)
    ensures Fold(edit, s, p) == Fold(edit, s, q)
  {
    hide KindOf, BuildsAll, FlatOp, ObjectOps;
    if Expands(raw) {
      assert AnyWalkAlike(edit, s, KindOf(raw.op).value, raw.value.fields);
    }
  }

  /** Whatever order the runtime walks the objects of a request in, the result is the same. */
  lemma {:induction false} ExpansionOrderIrrelevant<S(!new)>(
      edit: (Option<S>, Op) -> Option<S>, start: Option<S>, raws: seq<RawOp>, p: seq<Op>, q: seq<Op>)
    requires ObjectsAlike(edit, raws) && Normalizes(raws, p) && Normalizes(raws, q)
    ensures Fold(edit, start, p) == Fold(edit, start, q)
    decreases |raws|
  {
    hide Expands, Expansion, WellFormedOp, KindOf, AnyWalkAlike;
    if raws != [] {
      var init, raw := raws[..|raws| - 1], raws[|raws| - 1];
      assert raw in raws && forall r :: r in init ==> r in raws;
      var m :| 0 <= m <= |p| && Normalizes(init, p[..m]) && Expansion(raw, p[m..]);
      var n :| 0 <= n <= |q| && Normalizes(init, q[..n]) && Expansion(raw, q[n..]);
      ExpansionOrderIrrelevant(edit, start, init, p[..m], q[..n]);
      assert p == p[..m] + p[m..] && q == q[..n] + q[n..];
      FoldAppend(edit, start, p[..m], p[m..]);
      FoldAppend(edit, start, q[..n], q[n..]);
      ObjectAlikeAt(edit, Fold(edit, start, p[..m]), raws, raw, p[m..], q[n..]);
    }
  }

  predicate UserRequestOrderFree(raws: seq<RawOp>) {
    forall raw :: raw in raws && Expands(raw) && KindOf(raw.op).Some? ==> UserOrderFree(KindOf(raw.op).value, raw.value.fields.Keys)
  }

  predicate GroupRequestOrderFree(raws: seq<RawOp>) {
    forall raw :: raw in raws && Expands(raw) && KindOf(raw.op).Some? ==> GroupOrderFree(KindOf(raw.op).value, raw.value.fields.Keys)
  }

  /** A user PATCH means one thing, however its objects are walked. */
  lemma UserPatchIsDeterministic(user: UserEdit, raws: seq<RawOp>, p: seq<Op>, q: seq<Op>)
    requires UserRequestOrderFree(raws) && Normalizes(raws, p) && Normalizes(raws, q)
    ensures Fold(EditUser, Some(user), p) == Fold(EditUser, Some(user), q)
  {
    hide KindOf, BuildsAll, UserOrderFree, AnyWalkAlike, EditUser, FlatOp, Normalizes;
    forall s, raw | raw in raws && Expands(raw) && WellFormedOp(raw)
      ensures AnyWalkAlike(EditUser, s, KindOf(raw.op).value, raw.value.fields)
    {
      UserWalksAgree(s, KindOf(raw.op).value, raw.value.fields);
    }
    ExpansionOrderIrrelevant(EditUser, Some(user), raws, p, q);
  }

  /** A group PATCH means one thing, however its objects are walked. */
  lemma GroupPatchIsDeterministic(group: GroupEdit, raws: seq<RawOp>, p: seq<Op>, q: seq<Op>)
    requires GroupRequestOrderFree(raws) && Normalizes(raws, p) && Normalizes(raws, q)
    ensures Fold(EditGroup, Some(group), p) == Fold(EditGroup, Some(group), q)
  {
    hide KindOf, BuildsAll, GroupOrderFree, AnyWalkAlike, EditGroup, FlatOp, Normalizes;
    forall s, raw | raw in raws && Expands(raw) && WellFormedOp(raw)
      ensures AnyWalkAlike(EditGroup, s, KindOf(raw.op).value, raw.value.fields)
    {
      GroupWalksAgree(s, KindOf(raw.op).value, raw.value.fields);
    }
    ExpansionOrderIrrelevant(EditGroup, Some(group), raws, p, q);
  }

  // --------------------------------------------------------- what a group PATCH means

  /** The operation has the say on this member. */
  predicate Decides(op: Op, member: Id) {
    op.attribute == MembersAttr && (op.kind == Replace || op.removeAll || member in op.ids)
  }

  predicate DecidesIn(op: Op, member: Id) {
    op.kind != Remove && member in op.ids
  }

  lemma OneOperationDecides(edit: GroupEdit, op: Op, member: Id)
    requires op.removeAll ==> op.kind == Remove
    ensures var r := EditGroup(Some(edit), op);
      r.Some? ==> (member in r.value.members <==> if Decides(op, member) then DecidesIn(op, member) else member in edit.members)
  {
    hide Blank;
  }

  lemma RefusedStaysRefused(op: Op)
    ensures EditGroup(None, op) == None
  {
  }

  /** The last operation that has a say on a member decides; if none has, the stored set does. */
  lemma {:induction false} LastOperationDecides(group: GroupEdit, ops: seq<Op>, member: Id)
    requires Fold(EditGroup, Some(group), ops).Some?
    requires forall op :: op in ops ==> (op.removeAll ==> op.kind == Remove)
    ensures var members := Fold(EditGroup, Some(group), ops).value.members;
      && ((exists k :: LastSay(ops, member, k)) ==> forall k :: LastSay(ops, member, k) ==> (member in members <==> DecidesIn(ops[k], member)))
      && ((forall k :: 0 <= k < |ops| ==> !Decides(ops[k], member)) ==> (member in members <==> member in group.members))
    decreases |ops|
  {
    hide EditGroup, Decides, DecidesIn;
    if ops != [] {
      var init, last := ops[..|ops| - 1], ops[|ops| - 1];
      assert last in ops;
      var before := Fold(EditGroup, Some(group), init);
      RefusedStaysRefused(last);
      LastOperationDecides(group, init, member);
      OneOperationDecides(before.value, last, member);
      if !Decides(last, member) {
        forall k | LastSay(ops, member, k) ensures LastSay(init, member, k) {
          assert ops[k] == init[k];
        }
        assert forall k :: 0 <= k < |init| ==> init[k] == ops[k];
      } else {
        assert LastSay(ops, member, |ops| - 1);
        assert forall k :: LastSay(ops, member, k) ==> k == |ops| - 1;
      }
    }
  }

  predicate LastSay(ops: seq<Op>, member: Id, k: int) {
    0 <= k < |ops| && Decides(ops[k], member) && forall j :: k < j < |ops| ==> !Decides(ops[j], member)
  }

  /** The handler's loop over the operations of a group PATCH. */
  method FoldGroup(group: GroupEdit, ops: seq<Op>) returns (r: Option<GroupEdit>)
    ensures r == Fold(EditGroup, Some(group), ops)
  {
    var updated, memberSet := group, group.members;
    assert ops[..0] == [];
    for i := 0 to |ops|
      invariant Fold(EditGroup, Some(group), ops[..i]) == Some(updated.(members := memberSet))
    {
      var op := ops[i];
      assert ops[..i + 1][..i] == ops[..i];
      FoldStops(EditGroup, Some(group), ops, i + 1);
      if op.attribute == DisplayNameAttr {
        if op.kind == Remove || (op.text.Some? && Blank(op.text.value)) {
          return None;
        }
        if op.text.Some? {
          updated := updated.(name := op.text.value);
        }
      } else if op.attribute == ExternalIdAttr {
        if op.kind == Remove || op.text == Some("") {
          updated := updated.(externalId := None);
        } else if op.text.Some? {
          updated := updated.(externalId := op.text);
        }
      } else if op.attribute == MembersAttr {
        match op.kind
        case Add => memberSet := memberSet + AsSet(op.ids);
        case Remove =>
          if op.removeAll {
            memberSet := {};
          }
          memberSet := memberSet - AsSet(op.ids);
        case Replace => memberSet := AsSet(op.ids);
      }
    }
    assert ops[..|ops|] == ops;
    r := Some(updated.(members := memberSet));
  }

  /** The handler's loop over the operations of a user PATCH. */
  method FoldUser(user: UserEdit, ops: seq<Op>) returns (r: Option<UserEdit>)
    ensures r == Fold(EditUser, Some(user), ops)
  {
    var updated := user;
    assert ops[..0] == [];
    for i := 0 to |ops|
      invariant Fold(EditUser, Some(user), ops[..i]) == Some(updated)
    {
      var op := ops[i];
      assert ops[..i + 1][..i] == ops[..i];
      FoldStops(EditUser, Some(user), ops, i + 1);
      match op.attribute
      case ActiveAttr =>
        if op.flag.Some? {
          updated := updated.(active := op.flag.value);
        }
      case UserNameAttr =>
        if op.kind == Remove {
          return None;
        }
        if op.text.Some? {
          if Blank(op.text.value) {
            return None;
          }
          updated := updated.(userName := op.text.value);
        }
      case ExternalIdAttr =>
        if op.kind == Remove || op.text == Some("") {
          updated := updated.(externalId := None);
        } else if op.text.Some? {
          updated := updated.(externalId := op.text);
        }
      case DisplayNameAttr =>
        if op.kind == Remove {
          updated := updated.(displayName := Some(""));
        } else if op.text.Some? {
          updated := updated.(displayName := op.text);
        }
      case EmailsAttr =>
        if op.text.Some? && op.text.value != "" {
          updated := updated.(email := op.text);
        }
      case _ =>
    }
    assert ops[..|ops|] == ops;
    r := Some(updated);
  }

  /** Once rejected, rejected for good. */
  lemma {:induction false} FoldStops<S>(edit: (Option<S>, Op) -> Option<S>, start: Option<S>, ops: seq<Op>, n: nat)
    requires n <= |ops| && forall op :: edit(None, op) == None
    ensures Fold(edit, start, ops[..n]).None? ==> Fold(edit, start, ops).None?
    decreases |ops|
  {
    if n == |ops| {
      assert ops[..n] == ops;
    } else {
      var init := ops[..|ops| - 1];
      assert init[..n] == ops[..n];
      FoldStops(edit, start, init, n);
    }
  }

  /** Members in a pathless object are passed over: such an operation never changes the member set. */
  lemma PathlessObjectsKeepMembers(group: GroupEdit, raw: RawOp, ops: seq<Op>)
    requires Expands(raw) && Expansion(raw, ops) && forall k :: k in raw.value.fields ==> !raw.value.fields[k].NoValue?
    ensures Fold(EditGroup, Some(group), ops).Some? ==> Fold(EditGroup, Some(group), ops).value.members == group.members
  {
    hide KindOf, BuildsAll, ObjectOps, FlatOp;
    var kind := KindOf(raw.op).value;
    var order :| Walk(order, raw.value.fields.Keys) && ops == ObjectOps(kind, raw.value.fields, order);
    ObjectsSkipMembers(kind, raw.value.fields, order);
    OtherAttributesKeepMembers(group, ops);
  }

  lemma NoMembersBuilt(kind: OpKind, attribute: Attr, v: Value)
    requires !v.NoValue?
    ensures var r := BuildScalarOp(kind, attribute, v); r.Ok? && r.value.Some? ==> r.value.value.attribute != MembersAttr
  {
  }

  lemma {:induction false} ObjectsSkipMembers(kind: OpKind, fields: map<string, Value>, order: seq<string>)
    requires forall k :: k in order ==> k in fields && !fields[k].NoValue?
    ensures forall op :: op in ObjectOps(kind, fields, order) ==> op.attribute != MembersAttr
    decreases |order|
  {
    hide BuildScalarOp, AttrOf, Lower;
    if order != [] {
      var k := order[|order| - 1];
      assert k in order;
      ObjectsSkipMembers(kind, fields, order[..|order| - 1]);
      NoMembersBuilt(kind, KeyAttr(k), fields[k]);
    }
  }

  lemma {:induction false} OtherAttributesKeepMembers(group: GroupEdit, ops: seq<Op>)
    requires forall op :: op in ops ==> op.attribute != MembersAttr
    ensures Fold(EditGroup, Some(group), ops).Some? ==> Fold(EditGroup, Some(group), ops).value.members == group.members
    decreases |ops|
  {
    hide Blank;
    if ops != [] {
      assert ops[|ops| - 1] in ops;
      OtherAttributesKeepMembers(group, ops[..|ops| - 1]);
    }
  }

  /** Replacing the members without a value empties the group. */
  lemma ReplaceWithoutValueEmpties(group: GroupEdit, raw: RawOp, ops: seq<Op>)
    requires KindOf(raw.op) == Some(Replace) && raw.path == Attribute("members") && raw.value.NoValue? && Expansion(raw, ops)
    ensures Fold(EditGroup, Some(group), ops) == Some(group.(members := {}))
  {
    var op := Scalar(Replace, MembersAttr, None, None);
    assert ops == [op] && ops[..0] == [];
    assert AsSet(op.ids) == {};
  }
}
