/** Credential resolution on the login page (`authenticateUser`) and the redirect `handleSubmit`
    chooses from its result. The admin and student lists are whatever the server actions return;
    a field a record does not carry is `None`, which, like `undefined` in the source, is strictly
    equal to no string. */
module Login {
  import opened Seqs
  import StudentStore

  datatype Role = StudentRole | AdminRole

  datatype AdminRecord = AdminRecord(username: Option<string>, password: Option<string>)

  datatype StudentRecord = StudentRecord(id: Option<string>, password: Option<string>)

  datatype AuthResult = AuthResult(success: bool, redirectId: Option<string>, actualRole: Role)

  /** `record.field === value`. */
  predicate FieldIs(field: Option<string>, value: string)
  {
    field == Some(value)
  }

  function AdminNamed(user: string): AdminRecord -> bool
  {
    (a: AdminRecord) => FieldIs(a.username, user)
  }

  function StudentWithId(user: string): StudentRecord -> bool
  {
    (s: StudentRecord) => FieldIs(s.id, user)
  }

  /** The admin check passes: the FIRST admin whose username equals `user` has password `pass`. */
  ghost predicate AdminAccepts(admins: seq<AdminRecord>, user: string, pass: string)
  {
    exists i :: 0 <= i < |admins| && admins[i].username == Some(user)
      && (forall j :: 0 <= j < i ==> admins[j].username != Some(user))
      && admins[i].password == Some(pass)
  }

  /** The student check passes: the FIRST student whose id equals `user` has password `pass`. */
  ghost predicate StudentAccepts(students: seq<StudentRecord>, user: string, pass: string)
  {
    exists i :: 0 <= i < |students| && students[i].id == Some(user)
      && (forall j :: 0 <= j < i ==> students[j].id != Some(user))
      && students[i].password == Some(pass)
  }

  lemma FindAccepts<T>(s: seq<T>, p: T -> bool, ok: T -> bool)
    ensures (Find(s, p).Some? && ok(Find(s, p).value))
        <==> exists i :: 0 <= i < |s| && p(s[i]) && (forall j :: 0 <= j < i ==> !p(s[j])) && ok(s[i])
  {
    match FirstIndex(s, p)
    case None =>
    case Some(k) =>
      assert Find(s, p).value == s[k];
  }

  lemma AdminCheck(admins: seq<AdminRecord>, user: string, pass: string)
    ensures var m := Find(admins, AdminNamed(user));
            (m.Some? && FieldIs(m.value.password, pass)) <==> AdminAccepts(admins, user, pass)
  {
    var p := AdminNamed(user);
    var ok := (a: AdminRecord) => FieldIs(a.password, pass);
    FindAccepts(admins, p, ok);
    assert forall a :: p(a) == (a.username == Some(user)) && ok(a) == (a.password == Some(pass));
  }

  lemma StudentCheck(students: seq<StudentRecord>, user: string, pass: string)
    ensures var m := Find(students, StudentWithId(user));
            (m.Some? && FieldIs(m.value.password, pass)) <==> StudentAccepts(students, user, pass)
  {
    var p := StudentWithId(user);
    var ok := (s: StudentRecord) => FieldIs(s.password, pass);
    FindAccepts(students, p, ok);
    assert forall s :: p(s) == (s.id == Some(user)) && ok(s) == (s.password == Some(pass));
  }

  /** `authenticateUser`. */
  function Authenticate(user: string, pass: string, role: Role,
                        admins: seq<AdminRecord>, students: seq<StudentRecord>): (r: AuthResult)
    ensures (r.success && r.actualRole == AdminRole) <==> AdminAccepts(admins, user, pass)
    ensures (r.success && r.actualRole == StudentRole)
        <==> !AdminAccepts(admins, user, pass) && StudentAccepts(students, user, pass)
    ensures r.success && r.actualRole == AdminRole ==> r.redirectId == None
    ensures r.success && r.actualRole == StudentRole ==> r.redirectId == Some(user)
    ensures !r.success ==> r.actualRole == role && r.redirectId == None
  {
    AdminCheck(admins, user, pass);
    StudentCheck(students, user, pass);
    var matchedAdmin := Find(admins, AdminNamed(user));
    if matchedAdmin.Some? && FieldIs(matchedAdmin.value.password, pass) then
      AuthResult(true, None, AdminRole)
    else
      var student := Find(students, StudentWithId(user));
      if student.Some? && FieldIs(student.value.password, pass) && (role == AdminRole || role == StudentRole) then
        AuthResult(true, Some(user), StudentRole)
      else
        assert role == AdminRole || role == StudentRole;
        AuthResult(false, None, role)
  }

  /** Where `handleSubmit` sends the browser after a login attempt; None means it stays on the
      page and shows an error. The student target uses `redirectId || username`. */
  function RedirectTarget(r: AuthResult, username: string): (target: Option<string>)
    ensures target.None? <==> !r.success
    ensures target == Some("/admin/hub") <==> r.success && r.actualRole == AdminRole
    ensures r.success && r.actualRole == StudentRole && r.redirectId.Some? && r.redirectId.value != ""
            ==> target == Some("/dashboard/profile?id=" + r.redirectId.value)
    ensures r.success && r.actualRole == StudentRole && (r.redirectId.None? || r.redirectId == Some(""))
            ==> target == Some("/dashboard/profile?id=" + username)
  {
    assert forall id :: ("/dashboard/profile?id=" + id)[1] == 'd';
    if !r.success then None
    else if r.actualRole == AdminRole then Some("/admin/hub")
    else
      var id := if r.redirectId.Some? && r.redirectId.value != "" then r.redirectId.value else username;
      Some("/dashboard/profile?id=" + id)
  }

  /** `handleSubmit` once both lists have been fetched. */
  function HandleSubmit(user: string, pass: string, role: Role,
                        admins: seq<AdminRecord>, students: seq<StudentRecord>): (target: Option<string>)
    ensures target == Some("/admin/hub") <==> AdminAccepts(admins, user, pass)
    ensures target == Some("/dashboard/profile?id=" + user)
        <==> !AdminAccepts(admins, user, pass) && StudentAccepts(students, user, pass)
    ensures target == None
        <==> !AdminAccepts(admins, user, pass) && !StudentAccepts(students, user, pass)
  {
    var target := RedirectTarget(Authenticate(user, pass, role, admins, students), user);
    assert "/dashboard/profile?id=" + user != "/admin/hub" by {
      assert ("/dashboard/profile?id=" + user)[1] == 'd';
    }
    target
  }

  /** Only the first admin with a matching username is consulted: a later entry with the same
      name and the right password does not let the login through as admin. */
  lemma FirstAdminDecides(user: string, pass: string, role: Role, admins: seq<AdminRecord>,
                          later: AdminRecord, students: seq<StudentRecord>)
    requires |admins| > 0 && admins[0].username == Some(user) && admins[0].password != Some(pass)
    ensures Authenticate(user, pass, role, admins + [later], students).actualRole != AdminRole
         || !Authenticate(user, pass, role, admins + [later], students).success
  {
    var all := admins + [later];
    assert all[0] == admins[0];
  }

  /** A successful admin login does not depend on the student list. */
  lemma AdminTakesPrecedence(user: string, pass: string, role: Role, admins: seq<AdminRecord>,
                             students1: seq<StudentRecord>, students2: seq<StudentRecord>)
    requires AdminAccepts(admins, user, pass)
    ensures Authenticate(user, pass, role, admins, students1)
         == Authenticate(user, pass, role, admins, students2)
         == AuthResult(true, None, AdminRole)
  {
  }

  /** The selected role has no say in whether a login succeeds, nor in the role it resolves to;
      it only labels a failure. */
  lemma RoleOnlyLabelsFailure(user: string, pass: string,
                              admins: seq<AdminRecord>, students: seq<StudentRecord>)
    ensures var a := Authenticate(user, pass, AdminRole, admins, students);
            var s := Authenticate(user, pass, StudentRole, admins, students);
            a.success == s.success && (a.success ==> a == s)
  {
  }

  /** With lists shaped as the back end sends them (admins identified by e-mail and carrying no
      username, students carrying no password), no login succeeds. */
  lemma BackendShapedListsRejectAll(user: string, pass: string, role: Role,
                                    admins: seq<AdminRecord>, students: seq<StudentRecord>)
    requires forall i :: 0 <= i < |admins| ==> admins[i].username.None?
    requires forall i :: 0 <= i < |students| ==> students[i].password.None?
    ensures !Authenticate(user, pass, role, admins, students).success
    ensures HandleSubmit(user, pass, role, admins, students) == None
  {
  }

  /** The credentials of `getAdminCredentials` in `lib/data.ts`, used as the only admin entry (a
      pairing the program does not make: the login page reads the back end's lists), let
      "admin" / "admin123" in as admin, whatever the student list. */
  lemma StoreAdminLogsIn(role: Role, students: seq<StudentRecord>)
    ensures var c := StudentStore.GetAdminCredentials();
            var admins := [AdminRecord(Some(c.username), Some(c.password))];
            && Authenticate("admin", "admin123", role, admins, students) == AuthResult(true, None, AdminRole)
            && HandleSubmit("admin", "admin123", role, admins, students) == Some("/admin/hub")
  {
    var c := StudentStore.GetAdminCredentials();
    var admins := [AdminRecord(Some(c.username), Some(c.password))];
    assert AdminAccepts(admins, "admin", "admin123") by {
      assert admins[0].username == Some("admin") && admins[0].password == Some("admin123");
    }
  }
}
