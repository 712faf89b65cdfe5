/** The Fingerprint page: the registration/edit form, the requests its
    buttons send, and how it picks the next finger slot.  The requests are
    outputs; toasts, the confirmation dialog and the ESP32 enrollment call are
    not modelled beyond the decision to make them. */
module FingerprintForm {
  import opened Wrappers
  import opened Js
  import opened Store
  import Users

  /** The form's fields as the inputs hold them; `fingerId` is "" or the
      number the page put there. */
  datatype Form = Form(fingerId: Value, firstName: string, lastName: string, phone: string,
                       password: string, confirm: string)

  datatype Page = Page(form: Form, editing: bool, searchPhone: string)

  function EmptyForm(): Form {
    Form(Str(""), "", "", "", "", "")
  }

  /** The request body: the form without `confirm_password`. */
  datatype Submitted = Submitted(fingerId: Value, firstName: string, lastName: string, phone: string, password: string)

  datatype Request =
    | NoRequest(reason: string)
    | Put(target: Value, data: Submitted)
    | Post(data: Submitted)
    | Delete(target: Value)
    | Enroll(slot: Value)

  function WithoutConfirm(f: Form): (d: Submitted)
    ensures d.fingerId == f.fingerId && d.firstName == f.firstName && d.lastName == f.lastName
    ensures d.phone == f.phone && d.password == f.password
  {
    Submitted(f.fingerId, f.firstName, f.lastName, f.phone, f.password)
  }

  /** The `minLength` of both password inputs. */
  const MinPassword := 5

  /** The browser's constraint validation, which must pass before
      `handleSubmit` runs: first name, last name and phone are `required`;
      password and confirmation are `required` only for a new user; a
      non-empty password input shorter than `minLength` is too short.  The
      read-only finger id input carries no constraint. */
  predicate BrowserAccepts(p: Page) {
    && p.form.firstName != "" && p.form.lastName != "" && p.form.phone != ""
    && (!p.editing ==> p.form.password != "" && p.form.confirm != "")
    && (p.form.password == "" || |p.form.password| >= MinPassword)
    && (p.form.confirm == "" || |p.form.confirm| >= MinPassword)
  }

  /** Submitting the form: the browser blocks an invalid form; mismatching
      passwords send nothing; in edit mode the form goes to PUT by its finger
      id; a new registration needs a finger id first and then goes to POST. */
  function Submit(p: Page): (r: Request)
    ensures !BrowserAccepts(p) ==> r.NoRequest?
    ensures BrowserAccepts(p) && p.form.password != p.form.confirm ==> r.NoRequest?
    ensures BrowserAccepts(p) && p.form.password == p.form.confirm && p.editing ==>
      r == Put(p.form.fingerId, WithoutConfirm(p.form))
    ensures BrowserAccepts(p) && p.form.password == p.form.confirm && !p.editing ==>
      (r.NoRequest? <==> !Truthy(p.form.fingerId))
    ensures r.Post? ==> !p.editing && r.data == WithoutConfirm(p.form) && Truthy(r.data.fingerId)
    ensures r.Post? ==> |r.data.password| >= MinPassword && r.data.firstName != "" && r.data.lastName != "" && r.data.phone != ""
  {
    if !BrowserAccepts(p) then NoRequest("Please fill out this field.")
    else if p.form.password != p.form.confirm then NoRequest("Passwords don't match!")
    else if p.editing then Put(p.form.fingerId, WithoutConfirm(p.form))
    else if !Truthy(p.form.fingerId) then NoRequest("Please enroll a fingerprint first.")
    else Post(WithoutConfirm(p.form))
  }

  /** The browser's checks alone stop a submit: a blank name or phone, a
      blank password on a new user, or a password shorter than five
      characters sends nothing. */
  lemma InvalidFormSendsNothing(p: Page)
    requires || p.form.firstName == "" || p.form.lastName == "" || p.form.phone == ""
             || (!p.editing && p.form.password == "")
             || 0 < |p.form.password| < MinPassword
    ensures Submit(p).NoRequest?
  {
  }

  /** How `registerUser` reads a posted body: every text field is present. */
  function AsRegistration(d: Submitted): (b: Users.RegisterBody)
    ensures b.fingerId == d.fingerId
    ensures b.firstName == Some(d.firstName) && b.lastName == Some(d.lastName)
    ensures b.phone == Some(d.phone) && b.password == Some(d.password)
  {
    Users.RegisterBody(d.fingerId, Some(d.firstName), Some(d.lastName), Some(d.phone), Some(d.password))
  }

  /** `res.data?.id ? parseInt(res.data.id) + 1 : 1`. */
  function NextFingerId(latest: Option<int>): (n: int)
    ensures latest.Some? && latest.value != 0 ==> n == latest.value + 1
    ensures latest.None? || latest.value == 0 ==> n == 1
  {
    match latest
    case Some(k) => if k != 0 then k + 1 else 1
    case None => 1
  }

  /** The slot the page proposes is free in the registry the server read. */
  lemma NextFingerIsFree(db: Db)
    ensures var latest := Users.GetLatestFinger(db).body.id;
      !HasFinger(db.users, NextFingerId(latest))
  {
  }

  /** `fetchLatestFingerId`: on success the form gets the next slot; a failed
      request leaves it alone. */
  function LoadNextFinger(p: Page, latest: Option<Option<int>>): (r: Page)
    ensures latest.None? ==> r == p
    ensures latest.Some? ==> r == p.(form := p.form.(fingerId := Int(NextFingerId(latest.value))))
  {
    match latest
    case None => p
    case Some(id) => p.(form := p.form.(fingerId := Int(NextFingerId(id))))
  }

  /** After a successful `fetchLatestFingerId` the form proposes a finger id
      no user holds in the table the server read, and nothing else on the
      page changes. */
  lemma LoadedSlotIsFree(db: Db, p: Page)
    ensures var r := LoadNextFinger(p, Some(Users.GetLatestFinger(db).body.id));
      && r.form.fingerId.Int?
      && !HasFinger(db.users, r.form.fingerId.n)
      && r == p.(form := p.form.(fingerId := r.form.fingerId))
  {
    NextFingerIsFree(db);
  }

  /** A new user typed in after the page loaded the next slot registers:
      the slot is free, and so the server accepts the form as long as the
      phone is new and every field is filled in. */
  lemma FreshFormRegisters(db: Db, p: Page)
    requires !p.editing
    requires p.form.fingerId == Int(NextFingerId(Users.GetLatestFinger(db).body.id))
    requires NextFingerId(Users.GetLatestFinger(db).body.id) != 0
    requires p.form.password == p.form.confirm
    requires p.form.firstName != "" && p.form.lastName != "" && p.form.phone != ""
    requires |p.form.password| >= MinPassword
    requires !HasPhone(db.users, p.form.phone)
    ensures Submit(p).Post?
    ensures Users.RegisterUser(db, AsRegistration(Submit(p).data)).status == 201
  {
    NextFingerIsFree(db);
  }

  /** `resetForm`: every field cleared, search cleared, edit mode left. */
  function ResetForm(p: Page): (r: Page)
    ensures !r.editing && r.searchPhone == ""
    ensures r.form.firstName == "" && r.form.lastName == "" && r.form.phone == ""
    ensures r.form.password == "" && r.form.confirm == "" && !Truthy(r.form.fingerId)
  {
    Page(EmptyForm(), false, "")
  }

  /** `handleSearch` given the found user, or None when the lookup failed:
      the form shows the user with blank passwords and enters edit mode. */
  function ShowFound(p: Page, found: Option<UserView>): (r: Page)
    ensures found.None? ==> r == p
    ensures found.Some? ==>
      && r.editing && r.searchPhone == p.searchPhone
      && r.form == Form(Int(found.value.fingerId), found.value.firstName, found.value.lastName, found.value.phone, "", "")
  {
    match found
    case None => p
    case Some(u) => p.(form := Form(Int(u.fingerId), u.firstName, u.lastName, u.phone, "", ""), editing := true)
  }

  /** How `updateUser` reads a PUT body: every text field is present. */
  function AsUpdate(d: Submitted): (b: Users.UpdateBody)
    ensures b.firstName == Some(d.firstName) && b.lastName == Some(d.lastName)
    ensures b.phone == Some(d.phone) && b.password == Some(d.password)
  {
    Users.UpdateBody(Some(d.firstName), Some(d.lastName), Some(d.phone), Some(d.password))
  }

  /** The edit round trip: a user found by phone, shown in the form and
      submitted unchanged, reaches `PUT /users/<finger id>`, which the server
      never answers 404, and with unique phones and finger ids answers 200.
      The browser demands a first and last name before it submits. */
  lemma EditRoundTrip(db: Db, p: Page, phone: string)
    requires phone != "" && HasPhone(db.users, phone)
    requires Users.GetUserByPhone(db, phone).body.view.firstName != ""
    requires Users.GetUserByPhone(db, phone).body.view.lastName != ""
    ensures var view := Users.GetUserByPhone(db, phone).body.view;
      var req := Submit(ShowFound(p, Some(view)));
      && req == Put(Int(view.fingerId), Submitted(Int(view.fingerId), view.firstName, view.lastName, view.phone, ""))
      && Users.UpdateUser(db, IntText(view.fingerId), AsUpdate(req.data)).status != 404
      && (Unique(db.users) ==> Users.UpdateUser(db, IntText(view.fingerId), AsUpdate(req.data)).status == 200)
  {
    var view := Users.GetUserByPhone(db, phone).body.view;
    var shown := ShowFound(p, Some(view));
    assert shown.form == Form(Int(view.fingerId), view.firstName, view.lastName, view.phone, "", "") && shown.editing;
    assert view.phone == phone && phone != "";
    assert BrowserAccepts(shown);
    var req := Submit(shown);
    assert req == Put(Int(view.fingerId), WithoutConfirm(shown.form));
    UpdateFindsShownUser(db, phone, AsUpdate(req.data));
  }

  /** The path `${fingerId}` names the finger id it was rendered from. */
  lemma KeyOfIntText(n: int)
    ensures Users.FingerKey(Str(IntText(n))) == Some(n)
  {
    var text := IntText(n);
    IntTextReadsBack(n);
    assert text != "" by {
      if n < 0 { assert |text| == 1 + |Digits(0 - n)|; }
    }
  }

  /** The server side of the edit round trip. */
  lemma UpdateFindsShownUser(db: Db, phone: string, b: Users.UpdateBody)
    requires Users.GetUserByPhone(db, phone).status == 200
    requires Users.Given(b.firstName) && Users.Given(b.lastName) && b.phone == Some(phone)
    ensures var view := Users.GetUserByPhone(db, phone).body.view;
      && Users.UpdateUser(db, IntText(view.fingerId), b).status != 404
      && (Unique(db.users) ==> Users.UpdateUser(db, IntText(view.fingerId), b).status == 200)
  {
    var view := Users.GetUserByPhone(db, phone).body.view;
    var u :| u in db.users && u.phone == phone && view == ViewOf(u);
    KeyOfIntText(view.fingerId);
    var j :| 0 <= j < |db.users| && db.users[j] == u;
    assert HasFinger(db.users, view.fingerId);
    if Unique(db.users) {
      forall i | 0 <= i < |db.users| && db.users[i].phone == phone
        ensures db.users[i].fingerId == view.fingerId
      {
        assert i == j;
      }
    }
  }

  /** `handleDelete`: only a loaded user in edit mode can be deleted. */
  function DeleteRequest(p: Page): (r: Request)
    ensures r.Delete? <==> Truthy(p.form.fingerId) && p.editing
    ensures r.Delete? ==> r.target == p.form.fingerId
    ensures !r.Delete? ==> r.NoRequest?
  {
    if !Truthy(p.form.fingerId) || !p.editing then NoRequest("No user selected to delete")
    else Delete(p.form.fingerId)
  }

  /** `handleEnroll`: refused in edit mode.  The slot sent is the finger id
      the form held when the button was pressed; the refresh it awaits first
      is not visible to that closure. */
  function EnrollRequest(p: Page): (r: Request)
    ensures p.editing ==> r.NoRequest?
    ensures r.Enroll? <==> !p.editing && Truthy(p.form.fingerId)
    ensures r.Enroll? ==> r.slot == p.form.fingerId
  {
    if p.editing then NoRequest("Cannot enroll fingerprint for existing user")
    else if !Truthy(p.form.fingerId) then NoRequest("Couldn't determine next slot")
    else Enroll(p.form.fingerId)
  }

  /** After a reset the page sends neither a registration nor a delete until
      a slot or a user is loaded. */
  lemma ResetBlocksRequests(p: Page)
    ensures Submit(ResetForm(p)).NoRequest?
    ensures DeleteRequest(ResetForm(p)).NoRequest?
    ensures EnrollRequest(ResetForm(p)).NoRequest?
  {
  }
}
