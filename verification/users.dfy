/**
 One table row (a member record plus its transient `isEditing` flag) and the
 row-wise operations the dashboard maps over its user list: toggling edit mode,
 overwriting one text cell, and the case-insensitive search match.
 */
module Users {
  import Text

  /** The editable text columns; the dynamic `[field]` key is always one of these. */
  datatype Field = Name | Email | Role

  datatype User = User(id: int, name: string, email: string, role: string, isEditing: bool)

  function Get(u: User, f: Field): string
  {
    match f
    case Name => u.name
    case Email => u.email
    case Role => u.role
  }

  /** `{ ...user, [field]: value }`: the one cell becomes `v`, the rest of the record stays. */
  function Set(u: User, f: Field, v: string): (r: User)
    ensures Get(r, f) == v
    ensures forall g :: g != f ==> Get(r, g) == Get(u, g)
    ensures r.id == u.id && r.isEditing == u.isEditing
  {
    match f
    case Name => u.(name := v)
    case Email => u.(email := v)
    case Role => u.(role := v)
  }

  /** Two records agree on every text column. */
  predicate SameCells(a: User, b: User)
  {
    forall f :: Get(a, f) == Get(b, f)
  }

  /** The ids of the rows, in row order. */
  function Ids(users: seq<User>): (r: seq<int>)
    ensures |r| == |users|
    ensures forall i :: 0 <= i < |r| ==> r[i] == users[i].id
  {
    seq(|users|, i requires 0 <= i < |users| => users[i].id)
  }

  /** Every row carrying `id` gets `isEditing == flag`; all other rows, and every
      other column of the touched rows, are left as they were. */
  function SetEditing(users: seq<User>, id: int, flag: bool): (r: seq<User>)
    ensures |r| == |users|
    ensures forall i :: 0 <= i < |r| ==> r[i].id == users[i].id && SameCells(r[i], users[i])
    ensures forall i :: 0 <= i < |r| && users[i].id == id ==> r[i].isEditing == flag
    ensures forall i :: 0 <= i < |r| && users[i].id != id ==> r[i] == users[i]
  {
    seq(|users|, i requires 0 <= i < |users| =>
      if users[i].id == id then users[i].(isEditing := flag) else users[i])
  }

  /** Every row carrying `id` has column `f` overwritten with `v`; nothing else changes. */
  function SetCell(users: seq<User>, id: int, f: Field, v: string): (r: seq<User>)
    ensures |r| == |users|
    ensures forall i :: 0 <= i < |r| ==> r[i].id == users[i].id && r[i].isEditing == users[i].isEditing
    ensures forall i :: 0 <= i < |r| && users[i].id == id ==> Get(r[i], f) == v
    ensures forall i, g :: 0 <= i < |r| && g != f ==> Get(r[i], g) == Get(users[i], g)
    ensures forall i :: 0 <= i < |r| && users[i].id != id ==> r[i] == users[i]
  {
    seq(|users|, i requires 0 <= i < |users| =>
      if users[i].id == id then Set(users[i], f, v) else users[i])
  }

  /** Two records are equal exactly when they agree on id, edit flag and every column. */
  lemma UserExtensionality(a: User, b: User)
    requires a.id == b.id && a.isEditing == b.isEditing && SameCells(a, b)
    ensures a == b
  {
    assert Get(a, Name) == Get(b, Name);
    assert Get(a, Email) == Get(b, Email);
    assert Get(a, Role) == Get(b, Role);
  }

  /** Saving a row that was put into edit mode restores the list, provided the rows
      with that id were not editing before. */
  lemma SaveUndoesEdit(users: seq<User>, id: int)
    requires forall i :: 0 <= i < |users| && users[i].id == id ==> !users[i].isEditing
    ensures SetEditing(SetEditing(users, id, true), id, false) == users
  {
    var r := SetEditing(SetEditing(users, id, true), id, false);
    forall i | 0 <= i < |users|
      ensures r[i] == users[i]
    {
      UserExtensionality(r[i], users[i]);
    }
  }

  /** Writing back the previous value of a cell undoes the write, provided all rows
      with that id held the same previous value. */
  lemma SetCellUndo(users: seq<User>, id: int, f: Field, v: string, prior: string)
    requires forall i :: 0 <= i < |users| && users[i].id == id ==> Get(users[i], f) == prior
    ensures SetCell(SetCell(users, id, f, v), id, f, prior) == users
  {
    var r := SetCell(SetCell(users, id, f, v), id, f, prior);
    forall i | 0 <= i < |users|
      ensures r[i] == users[i]
    {
      UserExtensionality(r[i], users[i]);
    }
  }

  /** The search predicate: the lower-cased name, email or role includes the
      lower-cased term. */
  predicate Matches(u: User, term: string)
    ensures Matches(u, term) <==> exists f :: Text.Contains(Text.ToLower(Get(u, f)), Text.ToLower(term))
  {
    assert Get(u, Name) == u.name && Get(u, Email) == u.email && Get(u, Role) == u.role;
    var t := Text.ToLower(term);
    || Text.Contains(Text.ToLower(u.name), t)
    || Text.Contains(Text.ToLower(u.email), t)
    || Text.Contains(Text.ToLower(u.role), t)
  }

  /** Every row matches the empty term. */
  lemma MatchesEmpty(u: User)
    ensures Matches(u, "")
  {
    Text.ContainsEmpty(Text.ToLower(u.name));
  }

  /** The match ignores the case of the term: terms equal up to ASCII case match the same rows. */
  lemma MatchesIgnoresTermCase(u: User, t1: string, t2: string)
    requires Text.ToLower(t1) == Text.ToLower(t2)
    ensures Matches(u, t1) <==> Matches(u, t2)
  {
  }

  /** The match ignores the case of the row's columns as well. */
  lemma MatchesIgnoresCellCase(u: User, w: User, term: string)
    requires forall f :: Text.ToLower(Get(u, f)) == Text.ToLower(Get(w, f))
    ensures Matches(u, term) <==> Matches(w, term)
  {
    assert Text.ToLower(Get(u, Name)) == Text.ToLower(Get(w, Name));
    assert Text.ToLower(Get(u, Email)) == Text.ToLower(Get(w, Email));
    assert Text.ToLower(Get(u, Role)) == Text.ToLower(Get(w, Role));
  }

  /** A row whose column includes the term verbatim matches it. */
  lemma MatchesSubstring(u: User, f: Field, term: string, i: nat)
    requires Text.OccursAt(Get(u, f), term, i)
    ensures Matches(u, term)
  {
    var c := Get(u, f);
    var lc := Text.ToLower(c);
    assert lc[i..i + |term|] == Text.ToLower(term);
    assert Text.OccursAt(lc, Text.ToLower(term), i);
  }
}
