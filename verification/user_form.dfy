/**
 * The checks and permission edits of the user dialog (frontend/src/components/UserForm.js): which
 * field errors `validate` reports, and how one permission or all of an application's permissions
 * are switched on and off. Permissions are their numeric ids.
 */
module UserForm {
  import opened Wrappers
  import opened Seqs
  import opened Text

  /** The fields `validate` may report an error on. */
  datatype Field = Username | Email | Password

  /** The parts of the dialog's form data the checks and the permission edits read. */
  datatype UserFormData = UserFormData(username: string, email: string, password: string, permissions: seq<int>)

  /** Nothing but white space can never pass the email pattern. */
  lemma BlankIsNoEmail(s: string)
    ensures AllSpace(s) ==> !EmailShape(s)
  {
  }

  /** The user-name check: a name that trims to nothing is required. */
  function UsernameError(username: string): (e: Option<string>)
    ensures e.Some? <==> AllSpace(username)
    ensures e.Some? ==> e.value == "Username is required"
  {
    BlankIffAllSpace(username);
    if Trim(username) == [] then Some("Username is required") else None
  }

  /**
   * The email check: an email that trims to nothing is required, and any other must pass the
   * pattern as typed, surrounding white space included. It fails exactly when the pattern does.
   */
  function EmailError(email: string): (e: Option<string>)
    ensures e.Some? <==> !MatchesEmailPattern(email)
    ensures e.Some? ==> e.value == (if AllSpace(email) then "Email is required" else "Invalid email format")
  {
    BlankIffAllSpace(email);
    EmailShapeMatchesPattern(email);
    BlankIsNoEmail(email);
    if Trim(email) == [] then Some("Email is required")
    else if !EmailShape(email) then Some("Invalid email format")
    else None
  }

  /**
   * The password checks: a new user (no `user` being edited) needs a password, and a password that
   * is set needs eight characters; the second message replaces the first, though both never apply.
   */
  function PasswordError(password: string, editing: bool): (e: Option<string>)
    ensures e.Some? <==> 0 < |password| < 8 || (!editing && password == [])
    ensures e.Some? ==> e.value == (if password == [] then "Password is required for new users"
                                    else "Password must be at least 8 characters")
  {
    var e := if !editing && password == [] then Some("Password is required for new users") else None;
    if password != [] && |password| < 8 then Some("Password must be at least 8 characters") else e
  }

  /** `errors[field] = message` when a check produced a message. */
  function Put(errors: map<Field, string>, field: Field, e: Option<string>): (r: map<Field, string>)
    ensures field in r <==> field in errors || e.Some?
    ensures e.Some? ==> r[field] == e.value
    ensures forall f :: f != field ==> (f in r <==> f in errors) && (f in r ==> r[f] == errors[f])
  {
    if e.Some? then errors[field := e.value] else errors
  }

  /**
   * `validate`: the errors object holds one message for each field whose check fails, and nothing
   * for a field that passes; the form is accepted when it is empty.
   */
  function Validate(form: UserFormData, editing: bool): (errors: map<Field, string>)
    ensures Username in errors <==> AllSpace(form.username)
    ensures Username in errors ==> errors[Username] == "Username is required"
    ensures Email in errors <==> !MatchesEmailPattern(form.email)
    ensures Email in errors ==> errors[Email] == EmailError(form.email).value
    ensures Password in errors <==> 0 < |form.password| < 8 || (!editing && form.password == [])
    ensures Password in errors ==> errors[Password] == PasswordError(form.password, editing).value
  {
    var errors := Put(map[], Username, UsernameError(form.username));
    var errors := Put(errors, Email, EmailError(form.email));
    Put(errors, Password, PasswordError(form.password, editing))
  }

  /**
   * What the dialog accepts: a user name with some non-blank character, an email the pattern
   * matches, and a password of at least eight characters, which may stay empty when editing.
   */
  lemma ValidateAccepts(form: UserFormData, editing: bool)
    ensures Validate(form, editing) == map[] <==>
      && !AllSpace(form.username)
      && MatchesEmailPattern(form.email)
      && (|form.password| >= 8 || (editing && form.password == []))
  {
    var errors := Validate(form, editing);
    if errors != map[] {
      var f :| f in errors;
    }
  }

  /**
   * The elements of `s` outside `out`, in order: both `filter(id => id !== permissionId)` and
   * `filter(id => !allIds.includes(id))`.
   */
  function Drop(s: seq<int>, out: set<int>): (r: seq<int>)
    ensures Elems(r) == Elems(s) - out
    ensures forall x :: multiset(r)[x] == if x in out then 0 else multiset(s)[x]
    ensures forall k :: 0 <= k < |r| ==> r[k] in s && r[k] !in out
    ensures Distinct(s) ==> Distinct(r) && InOrder(s, r)
  {
    FilterOutside(s, out);
    Filter(s, x => x !in out)
  }

  /** What filtering out `out` keeps: every other id, as often as before. */
  lemma {:induction false} FilterOutside(s: seq<int>, out: set<int>)
    ensures Elems(Filter(s, x => x !in out)) == Elems(s) - out
    ensures forall x :: multiset(Filter(s, x => x !in out))[x] == if x in out then 0 else multiset(s)[x]
    ensures Distinct(s) ==> Distinct(Filter(s, x => x !in out)) && InOrder(s, Filter(s, x => x !in out))
  {
    if Distinct(s) {
      FilterInOrder(s, x => x !in out);
    }
    if s != [] {
      var rest := Filter(s[1..], x => x !in out);
      FilterOutside(s[1..], out);
      var r := Filter(s, x => x !in out);
      assert r == (if s[0] !in out then [s[0]] else []) + rest;
      assert s[0] in out ==> r == rest;
      DropStep(s, out, rest, r);
    }
  }

  /** One element of `Drop`: the head is kept exactly when it is outside `out`. */
  lemma DropStep(s: seq<int>, out: set<int>, rest: seq<int>, r: seq<int>)
    requires s != [] && r == if s[0] in out then rest else [s[0]] + rest
    requires Elems(rest) == Elems(s[1..]) - out
    requires forall x :: multiset(rest)[x] == if x in out then 0 else multiset(s[1..])[x]
    requires Distinct(s[1..]) ==> Distinct(rest)
    ensures Elems(r) == Elems(s) - out
    ensures forall x :: multiset(r)[x] == if x in out then 0 else multiset(s)[x]
    ensures Distinct(s) ==> Distinct(r)
  {
    assert s == [s[0]] + s[1..];
    assert Elems(s) == {s[0]} + Elems(s[1..]);
    assert multiset(s) == multiset{s[0]} + multiset(s[1..]);
    if Distinct(s) {
      DistinctSplit([s[0]], s[1..]);
    }
    if s[0] !in out {
      assert Elems(r) == {s[0]} + Elems(rest);
      assert multiset(r) == multiset{s[0]} + multiset(rest);
      ConsKeepsDistinct(s, rest);
    }
  }

  /** Putting the head of `s` before a repetition-free list drawn from its tail repeats nothing. */
  lemma ConsKeepsDistinct(s: seq<int>, r: seq<int>)
    requires s != [] && Elems(r) <= Elems(s[1..])
    ensures Distinct(s) && Distinct(r) ==> Distinct([s[0]] + r)
  {
    if Distinct(s) && Distinct(r) {
      assert forall k :: 0 <= k < |s[1..]| ==> s[1..][k] != s[0];
      assert s[0] !in Elems(s[1..]);
      assert s[0] !in Elems(r);
      DistinctCons(s[0], r);
    }
  }

  /** Appending an element a repetition-free list lacks repeats nothing. */
  lemma AppendKeepsDistinct(s: seq<int>, x: int)
    requires x !in s
    ensures Distinct(s) ==> Distinct(s + [x])
  {
    var r := s + [x];
    if Distinct(s) {
      forall i, j | 0 <= i < j < |r| ensures r[i] != r[j] {
        if j == |s| { assert r[i] == s[i]; }
      }
    }
  }

  /**
   * `handlePermissionToggle`: a selected permission is removed wherever it occurs; one that is not
   * selected is appended. Either way exactly that permission changes state.
   */
  function Toggle(perms: seq<int>, id: int): (r: seq<int>)
    ensures Elems(r) == if id in perms then Elems(perms) - {id} else Elems(perms) + {id}
    ensures id in perms ==> multiset(r) == multiset(perms)[id := 0]
    ensures id !in perms ==> |r| == |perms| + 1 && r[..|perms|] == perms && r[|perms|] == id
    ensures Distinct(perms) ==> Distinct(r)
  {
    if id in perms then
      var r := Drop(perms, {id});
      assert multiset(r) == multiset(perms)[id := 0];
      r
    else
      var r := perms + [id];
      AppendKeepsDistinct(perms, id);
      r
  }

  /**
   * Toggling a permission twice gives back the selection: the same list when it was off, and the
   * same permissions (the toggled one moved to the end) when it was on and listed once.
   */
  lemma ToggleTwice(perms: seq<int>, id: int)
    ensures id !in perms ==> Toggle(Toggle(perms, id), id) == perms
    ensures Elems(Toggle(Toggle(perms, id), id)) == Elems(perms)
    ensures multiset(perms)[id] <= 1 ==> multiset(Toggle(Toggle(perms, id), id)) == multiset(perms)
  {
    var once := Toggle(perms, id);
    if id !in perms {
      assert id in once;
      assert once == perms + [id];
      assert Toggle(once, id) == perms by {
        assert multiset(Toggle(once, id)) == multiset(perms);
        DropLast(perms, id);
      }
    } else {
      assert id !in multiset(once);
      assert id !in once;
    }
  }

  /** Removing an element that only sits at the end of a list gives the list without it. */
  lemma {:induction false} DropLast(s: seq<int>, id: int)
    requires id !in s
    ensures Drop(s + [id], {id}) == s
  {
    if s != [] {
      assert (s + [id])[1..] == s[1..] + [id];
      DropLast(s[1..], id);
    }
  }

  /** The permission ids of all groups, group by group: `flatMap(group => group.permissions.map(p => p.id))`. */
  function Flatten(groups: seq<seq<int>>): (all: seq<int>)
    ensures forall i, j :: 0 <= i < |groups| && 0 <= j < |groups[i]| ==> groups[i][j] in all
    ensures forall x :: x in all ==> exists i :: 0 <= i < |groups| && x in groups[i]
  {
    if groups == [] then []
    else
      var rest := Flatten(groups[1..]);
      assert forall i :: 1 <= i < |groups| ==> groups[i] == groups[1..][i - 1];
      groups[0] + rest
  }

  /**
   * `[...new Set(s)]` after `seen` is already in the set: the elements of `s` not in `seen`, each
   * once, in the order they first occur.
   */
  function DedupFrom(s: seq<int>, seen: set<int>): (r: seq<int>)
    ensures Distinct(r)
    ensures Elems(r) == Elems(s) - seen
    ensures forall k :: 0 <= k < |r| ==> r[k] in s && r[k] !in seen
    ensures InOrder(s, r)
  {
    if s == [] then []
    else
      var isNew := s[0] !in seen;
      var rest := DedupFrom(s[1..], if isNew then seen + {s[0]} else seen);
      assert forall k :: 0 <= k < |rest| ==> rest[k] in s[1..] && rest[k] != s[0];
      assert Elems(s) == {s[0]} + Elems(s[1..]);
      InOrderTail(s, rest);
      if isNew then
        assert Elems([s[0]] + rest) == {s[0]} + Elems(rest);
        DistinctCons(s[0], rest);
        InOrderCons(s, rest);
        [s[0]] + rest
      else rest
  }

  /** `[...new Set(s)]`: the elements of `s`, each once, in order of first occurrence. */
  function Dedup(s: seq<int>): (r: seq<int>)
    ensures Distinct(r) && Elems(r) == Elems(s)
    ensures forall k :: 0 <= k < |r| ==> r[k] in s
    ensures InOrder(s, r)
  {
    DedupFrom(s, {})
  }

  /** A list that holds no repetition is its own set listing. */
  lemma {:induction false} DedupDistinct(s: seq<int>, seen: set<int>)
    requires Distinct(s) && forall k :: 0 <= k < |s| ==> s[k] !in seen
    ensures DedupFrom(s, seen) == s
  {
    if s != [] {
      assert forall k :: 0 <= k < |s[1..]| ==> s[1..][k] != s[0];
      DedupDistinct(s[1..], seen + {s[0]});
    }
  }

  /** Every id of `all` is selected in `perms`: `allIds.every(id => permissions.includes(id))`. */
  predicate AllSelected(perms: seq<int>, all: seq<int>) {
    forall k :: 0 <= k < |all| ==> all[k] in perms
  }

  /**
   * `handleSelectAllPermissions`: when every permission of the groups is already selected they are
   * all removed (other selections stay, in order); otherwise they are all added after the current
   * selection, without duplicates.
   */
  function SelectAll(perms: seq<int>, groups: seq<seq<int>>): (r: seq<int>)
    ensures AllSelected(perms, Flatten(groups)) ==> Elems(r) == Elems(perms) - Elems(Flatten(groups))
    ensures AllSelected(perms, Flatten(groups)) ==> forall x :: x !in Flatten(groups) ==> multiset(r)[x] == multiset(perms)[x]
    ensures !AllSelected(perms, Flatten(groups)) ==> Elems(r) == Elems(perms) + Elems(Flatten(groups))
    ensures !AllSelected(perms, Flatten(groups)) ==> forall k :: 0 <= k < |r| ==> r[k] in perms + Flatten(groups)
    ensures !AllSelected(perms, Flatten(groups)) ==> Distinct(r) && InOrder(perms + Flatten(groups), r)
    ensures Distinct(perms) ==> Distinct(r)
  {
    var all := Flatten(groups);
    if AllSelected(perms, all) then Drop(perms, Elems(all))
    else Dedup(perms + all)
  }

  /** Adding to a selection without repetitions keeps it in front, unchanged. */
  lemma SelectAllKeepsSelection(perms: seq<int>, groups: seq<seq<int>>)
    requires Distinct(perms) && !AllSelected(perms, Flatten(groups))
    ensures |SelectAll(perms, groups)| >= |perms| && SelectAll(perms, groups)[..|perms|] == perms
  {
    var all := Flatten(groups);
    DedupPrefix(perms, all, {});
  }

  /** Listing a repetition-free prefix: the prefix comes out first and unchanged. */
  lemma {:induction false} DedupPrefix(p: seq<int>, q: seq<int>, seen: set<int>)
    requires Distinct(p) && forall k :: 0 <= k < |p| ==> p[k] !in seen
    ensures |DedupFrom(p + q, seen)| >= |p| && DedupFrom(p + q, seen)[..|p|] == p
  {
    if p != [] {
      assert (p + q)[0] == p[0] && (p + q)[1..] == p[1..] + q;
      assert forall k :: 0 <= k < |p[1..]| ==> p[1..][k] != p[0];
      DedupPrefix(p[1..], q, seen + {p[0]});
    }
  }

  /**
   * Pressing "select all" twice: a full selection that was cleared is restored as a set, and a
   * partial selection that was completed is then cleared of every group permission.
   */
  lemma SelectAllTwice(perms: seq<int>, groups: seq<seq<int>>)
    ensures AllSelected(perms, Flatten(groups)) ==>
      Elems(SelectAll(SelectAll(perms, groups), groups)) == Elems(perms)
    ensures !AllSelected(perms, Flatten(groups)) ==>
      Elems(SelectAll(SelectAll(perms, groups), groups)) == Elems(perms) - Elems(Flatten(groups))
  {
    var all := Flatten(groups);
    var once := SelectAll(perms, groups);
    if AllSelected(perms, all) {
      assert Elems(all) <= Elems(perms);
      if all != [] {
        assert all[0] in Elems(all);
        assert all[0] !in Elems(once);
      } else {
        assert AllSelected(once, all);
      }
    } else {
      forall k | 0 <= k < |all| ensures all[k] in once {
        assert all[k] in Elems(perms + all);
      }
    }
  }
}
