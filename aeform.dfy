/**
 * The form that creates or edits a candidate list: the editor's state and its
 * list edits, the image checks before an upload, the saved record, and the save
 * itself (update or insert the list, then replace its members) over in-memory
 * tables.
 */
module AEForm {
  import opened Wrappers
  import opened Text

  // ---------------------------------------------------------------------------
  // Records

  /** A member as the form holds it; the database row id is not kept. */
  datatype Membro = Membro(nome: string, cargo: string, orgao: string, foto_url: Option<string>)

  /** The list fields the form edits. */
  datatype FormData = FormData(
    nome: string,
    num_colaboradores: int,
    video_url: string,
    logo_url: string,
    propostas: seq<string>)

  /** The whole editor: the list fields, the member list, the member draft and the proposal input. */
  datatype Editor = Editor(form: FormData, membros: seq<Membro>, draft: Membro, newProposta: string)

  /** A row of the `AEs` table (the columns the form writes). */
  datatype AeRow = AeRow(
    id: int,
    nome: string,
    num_colaboradores: Option<int>,
    video_url: Option<string>,
    logo_url: Option<string>,
    propostas: Option<seq<string>>,
    user_id: Option<string>)

  /** A row of the `os_onze` (members) table; its own id, assigned by the database, is not kept. */
  datatype MemberRow = MemberRow(ae_id: int, nome: string, cargo: string, orgao: string, foto_url: Option<string>)

  /** What the form writes to the `AEs` table. */
  datatype Payload = Payload(
    nome: string,
    num_colaboradores: int,
    video_url: Option<string>,
    logo_url: Option<string>,
    propostas: Option<seq<string>>,
    user_id: string)

  /** A chosen file, as the upload handlers see it: its MIME type and size in bytes. */
  datatype Image = Image(mime: string, size: nat)

  datatype ImageCheck = NoFile | NotAnImage | TooLarge | Accepted

  const Direcao: string := "DIREÇÃO"
  const ImagePrefix: string := "image/"
  const MaxImageSize: nat := 5 * 1024 * 1024

  /** The member draft after a member was added, and on a fresh form. */
  const EmptyDraft: Membro := Membro("", "", Direcao, None)

  const EmptyForm: FormData := FormData("", 0, "", "", [])

  // ---------------------------------------------------------------------------
  // Loading

  /** The form fields of an existing list: a null column shows as "", 0 or []. */
  function LoadForm(ae: Option<AeRow>): (f: FormData)
    ensures ae.None? ==> f == EmptyForm
    ensures ae.Some? ==>
      && f.nome == ae.value.nome
      && f.num_colaboradores == ae.value.num_colaboradores.GetOr(0)
      && f.video_url == ae.value.video_url.GetOr("")
      && f.logo_url == ae.value.logo_url.GetOr("")
      && f.propostas == ae.value.propostas.GetOr([])
  {
    match ae
    case None => EmptyForm
    case Some(row) =>
      FormData(
        row.nome,
        if row.num_colaboradores.Some? then row.num_colaboradores.value else 0,
        if row.video_url.Some? then row.video_url.value else "",
        if row.logo_url.Some? then row.logo_url.value else "",
        if row.propostas.Some? then row.propostas.value else [])
  }

  /** The editor as the component starts: the loaded fields, no members yet, an empty draft and input. */
  function InitialEditor(ae: Option<AeRow>): (e: Editor)
    ensures e.form == LoadForm(ae) && e.membros == [] && e.draft == EmptyDraft && e.newProposta == ""
  {
    Editor(LoadForm(ae), [], EmptyDraft, "")
  }

  // ---------------------------------------------------------------------------
  // Removing by position

  /** `l.filter((_, j) => j !== i)`: every element whose position is not `i`. */
  function RemoveAt<T>(l: seq<T>, i: int): (r: seq<T>)
    ensures 0 <= i < |l| ==> r == l[..i] + l[i + 1..]
    ensures !(0 <= i < |l|) ==> r == l
  {
    if l == [] then []
    else
      var init, last := l[..|l| - 1], l[|l| - 1];
      var rest := RemoveAt(init, i);
      if i == |l| - 1 then
        assert l[i + 1..] == [] && l[..i] == init;
        rest
      else
        assert 0 <= i < |l| ==> l[..i] + l[i + 1..] == init[..i] + init[i + 1..] + [last];
        assert !(0 <= i < |l|) ==> l == init + [last];
        rest + [last]
  }

  // ---------------------------------------------------------------------------
  // Editing the member list

  /**
   * `addMembro`: the draft is appended as it is, untrimmed, and the draft reset,
   * unless its name or its role is blank after trimming, in which case nothing changes.
   */
  function AddMembro(e: Editor): (r: Editor)
    ensures r.form == e.form && r.newProposta == e.newProposta
    ensures AllSpace(e.draft.nome) || AllSpace(e.draft.cargo) ==> r == e
    ensures !AllSpace(e.draft.nome) && !AllSpace(e.draft.cargo) ==>
              r.membros == e.membros + [e.draft] && r.draft == EmptyDraft
  {
    TrimEmptyIff(e.draft.nome);
    TrimEmptyIff(e.draft.cargo);
    if Trim(e.draft.nome) == [] || Trim(e.draft.cargo) == [] then e
    else e.(membros := e.membros + [e.draft], draft := EmptyDraft)
  }

  /** `removeMembro(index)`: only the member list changes, and only position `index` goes. */
  function RemoveMembro(e: Editor, index: int): (r: Editor)
    ensures r.form == e.form && r.draft == e.draft && r.newProposta == e.newProposta
    ensures 0 <= index < |e.membros| ==> r.membros == e.membros[..index] + e.membros[index + 1..]
    ensures !(0 <= index < |e.membros|) ==> r == e
  {
    e.(membros := RemoveAt(e.membros, index))
  }

  /** Two members the remove button cannot tell apart: same name, role and body. */
  predicate SameListing(a: Membro, b: Membro) {
    a.nome == b.nome && a.cargo == b.cargo && a.orgao == b.orgao
  }

  /** `findIndex` for a member with the same name, role and body; -1 when there is none. */
  function FindListing(l: seq<Membro>, m: Membro): (j: int)
    ensures j == -1 <==> forall k :: 0 <= k < |l| ==> !SameListing(l[k], m)
    ensures j != -1 ==> 0 <= j < |l| && SameListing(l[j], m)
    ensures j != -1 ==> forall k :: 0 <= k < j ==> !SameListing(l[k], m)
  {
    if l == [] then -1
    else if SameListing(l[0], m) then 0
    else
      var j := FindListing(l[1..], m);
      if j == -1 then -1 else j + 1
  }

  /**
   * The remove button of the row at `k`, as written: it removes the first member
   * with the clicked row's name, role and body, which is an earlier row when one
   * shares all three.
   */
  function ClickRemoveAsWritten(e: Editor, k: nat): (r: Editor)
    requires k < |e.membros|
    ensures |r.membros| == |e.membros| - 1
    ensures var j := FindListing(e.membros, e.membros[k]);
      0 <= j <= k && r.membros == e.membros[..j] + e.membros[j + 1..]
  {
    RemoveMembro(e, FindListing(e.membros, e.membros[k]))
  }

  /** The remove button of the row at `k`, corrected: exactly the clicked row goes. */
  function ClickRemove(e: Editor, k: nat): (r: Editor)
    requires k < |e.membros|
    ensures r.membros == e.membros[..k] + e.membros[k + 1..]
    ensures r.form == e.form && r.draft == e.draft && r.newProposta == e.newProposta
  {
    RemoveMembro(e, k)
  }

  /** The two agree whenever no earlier row has the clicked row's name, role and body. */
  lemma ClickRemoveAgreesWithoutTwins(e: Editor, k: nat)
    requires k < |e.membros|
    requires forall j :: 0 <= j < k ==> !SameListing(e.membros[j], e.membros[k])
    ensures ClickRemoveAsWritten(e, k) == ClickRemove(e, k)
  {
    assert FindListing(e.membros, e.membros[k]) == k;
  }

  /**
   * Two members listed alike who differ only in their photo: clicking the second
   * removes the first, so the photo the user meant to keep is lost.
   */
  lemma ClickRemoveAsWrittenDropsTwin()
    ensures var a := Membro("Ana", "Vogal", Direcao, Some("a.png"));
      var b := Membro("Ana", "Vogal", Direcao, None);
      var e := Editor(EmptyForm, [a, b], EmptyDraft, "");
      && ClickRemoveAsWritten(e, 1).membros == [b]
      && ClickRemove(e, 1).membros == [a]
  {
    var a := Membro("Ana", "Vogal", Direcao, Some("a.png"));
    var b := Membro("Ana", "Vogal", Direcao, None);
    var e := Editor(EmptyForm, [a, b], EmptyDraft, "");
    assert FindListing(e.membros, b) == 0;
  }

  /** Removing the member just added gives the member list back. */
  lemma AddThenRemoveMembro(e: Editor)
    requires !AllSpace(e.draft.nome) && !AllSpace(e.draft.cargo)
    ensures RemoveMembro(AddMembro(e), |e.membros|).membros == e.membros
  {
    assert (e.membros + [e.draft])[..|e.membros|] == e.membros;
  }

  // ---------------------------------------------------------------------------
  // Editing the proposals

  /**
   * `addProposta`: the trimmed input is appended and the input cleared, unless it is
   * blank, in which case nothing changes (the input is kept).
   */
  function AddProposta(e: Editor): (r: Editor)
    ensures r.membros == e.membros && r.draft == e.draft
    ensures r.form.nome == e.form.nome && r.form.num_colaboradores == e.form.num_colaboradores
    ensures r.form.video_url == e.form.video_url && r.form.logo_url == e.form.logo_url
    ensures AllSpace(e.newProposta) ==> r == e
    ensures !AllSpace(e.newProposta) ==>
              && r.form.propostas == e.form.propostas + [Trim(e.newProposta)]
              && r.newProposta == ""
              && Trim(e.newProposta) != []
              && !IsSpace(Trim(e.newProposta)[0])
              && !IsSpace(Trim(e.newProposta)[|Trim(e.newProposta)| - 1])
  {
    TrimEmptyIff(e.newProposta);
    TrimIsInnerSlice(e.newProposta);
    var value := Trim(e.newProposta);
    if value != [] then
      e.(form := e.form.(propostas := e.form.propostas + [value]), newProposta := "")
    else e
  }

  /** `removeProposta(index)`: only the proposal list changes, and only position `index` goes. */
  function RemoveProposta(e: Editor, index: int): (r: Editor)
    ensures r.membros == e.membros && r.draft == e.draft && r.newProposta == e.newProposta
    ensures r.form.nome == e.form.nome && r.form.num_colaboradores == e.form.num_colaboradores
    ensures r.form.video_url == e.form.video_url && r.form.logo_url == e.form.logo_url
    ensures 0 <= index < |e.form.propostas| ==>
              r.form.propostas == e.form.propostas[..index] + e.form.propostas[index + 1..]
    ensures !(0 <= index < |e.form.propostas|) ==> r == e
  {
    e.(form := e.form.(propostas := RemoveAt(e.form.propostas, index)))
  }

  /** Removing the proposal just added gives the list fields back. */
  lemma AddThenRemoveProposta(e: Editor)
    requires !AllSpace(e.newProposta)
    ensures RemoveProposta(AddProposta(e), |e.form.propostas|).form == e.form
  {
    var ps := e.form.propostas;
    assert (ps + [Trim(e.newProposta)])[..|ps|] == ps;
  }

  // ---------------------------------------------------------------------------
  // Images

  /**
   * The checks both upload handlers make before uploading: a file must be chosen,
   * its type must start with "image/" (checked first), and it may hold at most 5 MiB.
   */
  function ValidateImage(file: Option<Image>): (c: ImageCheck)
    ensures c == NoFile <==> file.None?
    ensures c == NotAnImage <==> file.Some? && !StartsWith(file.value.mime, ImagePrefix)
    ensures c == TooLarge <==>
              file.Some? && StartsWith(file.value.mime, ImagePrefix) && file.value.size > MaxImageSize
    ensures c == Accepted <==>
              file.Some? && StartsWith(file.value.mime, ImagePrefix) && file.value.size <= MaxImageSize
  {
    match file
    case None => NoFile
    case Some(f) =>
      if !StartsWith(f.mime, ImagePrefix) then NotAnImage
      else if f.size > MaxImageSize then TooLarge
      else Accepted
  }

  /**
   * `handleLogoUpload`: `url` is the public address of the uploaded file, or `None`
   * when the upload failed. Only an accepted and uploaded file changes the editor,
   * and only its logo address.
   */
  function UploadLogo(e: Editor, file: Option<Image>, url: Option<string>): (r: Editor)
    ensures ValidateImage(file) == Accepted && url.Some? ==> r == e.(form := e.form.(logo_url := url.value))
    ensures ValidateImage(file) != Accepted || url.None? ==> r == e
  {
    if ValidateImage(file) != Accepted then e
    else if url.None? then e
    else e.(form := e.form.(logo_url := url.value))
  }

  /**
   * `handleMemberPhotoUpload`: as for the logo, but the address becomes the member
   * draft's photo.
   */
  function UploadMemberPhoto(e: Editor, file: Option<Image>, url: Option<string>): (r: Editor)
    ensures ValidateImage(file) == Accepted && url.Some? ==> r == e.(draft := e.draft.(foto_url := url))
    ensures ValidateImage(file) != Accepted || url.None? ==> r == e
  {
    if ValidateImage(file) != Accepted then e
    else if url.None? then e
    else e.(draft := e.draft.(foto_url := url))
  }

  // ---------------------------------------------------------------------------
  // What is saved

  /** JavaScript's `s || null` on a string. */
  function NullIfEmpty(s: string): (o: Option<string>)
    ensures o.None? <==> s == ""
    ensures o.Some? ==> o.value == s
  {
    if s == "" then None else Some(s)
  }

  /**
   * The record written to `AEs`: empty addresses and an empty proposal list become
   * null, and the owner is the signed-in user.
   */
  function ListPayload(f: FormData, user: string): (p: Payload)
    ensures p.nome == f.nome && p.num_colaboradores == f.num_colaboradores && p.user_id == user
    ensures p.video_url == NullIfEmpty(f.video_url) && p.logo_url == NullIfEmpty(f.logo_url)
    ensures p.propostas.None? <==> f.propostas == []
    ensures p.propostas.Some? ==> p.propostas.value == f.propostas
  {
    Payload(
      f.nome,
      f.num_colaboradores,
      NullIfEmpty(f.video_url),
      NullIfEmpty(f.logo_url),
      if |f.propostas| > 0 then Some(f.propostas) else None,
      user)
  }

  /** The `AEs` row that holds a payload. */
  function StoredRow(id: int, p: Payload): (row: AeRow)
    ensures row.id == id && row.user_id == Some(p.user_id)
  {
    AeRow(id, p.nome, Some(p.num_colaboradores), p.video_url, p.logo_url, p.propostas, Some(p.user_id))
  }

  /** Saving a form and loading the stored row gives the same form back. */
  lemma SaveThenLoad(f: FormData, user: string, id: int)
    ensures LoadForm(Some(StoredRow(id, ListPayload(f, user)))) == f
  {
  }

  /** Loading a row and saving it again stores the row with "" read as null and [] as null. */
  lemma LoadThenSave(row: AeRow, user: string)
    ensures var p := ListPayload(LoadForm(Some(row)), user);
      && p.nome == row.nome
      && p.video_url == (if row.video_url == Some("") then None else row.video_url)
      && p.logo_url == (if row.logo_url == Some("") then None else row.logo_url)
      && p.propostas == (if row.propostas == Some([]) then None else row.propostas)
      && p.num_colaboradores == row.num_colaboradores.GetOr(0)
  {
  }

  /** The member row written for a form member: a missing or empty photo becomes null. */
  function MemberRowOf(aeId: int, m: Membro): (row: MemberRow)
    ensures row.ae_id == aeId && row.nome == m.nome && row.cargo == m.cargo && row.orgao == m.orgao
    ensures row.foto_url.None? <==> m.foto_url.None? || m.foto_url == Some("")
    ensures row.foto_url.Some? ==> row.foto_url == m.foto_url
  {
    MemberRow(aeId, m.nome, m.cargo, m.orgao, if m.foto_url.Some? then NullIfEmpty(m.foto_url.value) else None)
  }

  function MemberRows(aeId: int, ms: seq<Membro>): (rows: seq<MemberRow>)
    ensures |rows| == |ms| && forall i :: 0 <= i < |ms| ==> rows[i] == MemberRowOf(aeId, ms[i])
  {
    seq(|ms|, i requires 0 <= i < |ms| => MemberRowOf(aeId, ms[i]))
  }

  /** The text shown when saving fails: a duplicate-list message when the error names `user_has_ae`. */
  function SaveErrorMessage(err: string): (msg: string)
    ensures Contains(err, "user_has_ae") ==> msg == "Você já possui uma lista. Edite a existente ou delete-a primeiro."
    ensures !Contains(err, "user_has_ae") ==> msg == "Erro ao salvar lista"
  {
    if Contains(err, "user_has_ae") then "Você já possui uma lista. Edite a existente ou delete-a primeiro."
    else "Erro ao salvar lista"
  }

  // ---------------------------------------------------------------------------
  // Tables

  /** The member rows of one list, in table order. */
  function MembersOf(rows: seq<MemberRow>, aeId: int): (r: seq<MemberRow>)
    ensures |r| <= |rows|
    ensures forall i :: 0 <= i < |r| ==> r[i].ae_id == aeId
  {
    if rows == [] then []
    else
      var rest := MembersOf(rows[..|rows| - 1], aeId);
      var last := rows[|rows| - 1];
      if last.ae_id == aeId then rest + [last] else rest
  }

  /** `delete().eq("ae_id", aeId)` on the members table. */
  function DeleteMembersOf(rows: seq<MemberRow>, aeId: int): (r: seq<MemberRow>)
    ensures |r| <= |rows|
    ensures forall i :: 0 <= i < |r| ==> r[i].ae_id != aeId
  {
    if rows == [] then []
    else
      var rest := DeleteMembersOf(rows[..|rows| - 1], aeId);
      var last := rows[|rows| - 1];
      if last.ae_id == aeId then rest else rest + [last]
  }

  /** `update(p).eq("id", id)` on the lists table: every row with that id takes the payload. */
  function UpdateList(lists: seq<AeRow>, id: int, p: Payload): (r: seq<AeRow>)
    ensures |r| == |lists|
    ensures forall i :: 0 <= i < |lists| ==> r[i] == if lists[i].id == id then StoredRow(id, p) else lists[i]
  {
    seq(|lists|, i requires 0 <= i < |lists| => if lists[i].id == id then StoredRow(id, p) else lists[i])
  }

  datatype Tables = Tables(lists: seq<AeRow>, members: seq<MemberRow>)

  /** The backend's answers to the save's calls: an error message per call, and the id of an inserted list. */
  datatype Backend = Backend(listErr: Option<string>, deleteErr: Option<string>, membersErr: Option<string>, newId: int)

  datatype SaveResult = NotSignedIn | Saved(aeId: int, notice: string) | SaveFailed(message: string)

  datatype SaveStep = SaveStep(tables: Tables, result: SaveResult)

  /**
   * `handleSubmit` after the user lookup, as a function of the tables: update the
   * edited list or insert a new one, on an edit delete the list's members, then
   * insert the form's members if there are any; the first failing call ends it.
   */
  function Save(t: Tables, editing: Option<int>, f: FormData, membros: seq<Membro>,
                user: Option<string>, b: Backend): SaveStep
  {
    if user.None? then SaveStep(t, NotSignedIn)
    else if b.listErr.Some? then SaveStep(t, SaveFailed(SaveErrorMessage(b.listErr.value)))
    else
      var p := ListPayload(f, user.value);
      var aeId := if editing.Some? then editing.value else b.newId;
      var lists := if editing.Some? then UpdateList(t.lists, aeId, p) else t.lists + [StoredRow(aeId, p)];
      if editing.Some? && b.deleteErr.Some? then
        SaveStep(Tables(lists, t.members), SaveFailed(SaveErrorMessage(b.deleteErr.value)))
      else
        var kept := if editing.Some? then DeleteMembersOf(t.members, aeId) else t.members;
        if |membros| > 0 && b.membersErr.Some? then
          SaveStep(Tables(lists, kept), SaveFailed(SaveErrorMessage(b.membersErr.value)))
        else
          var notice := if editing.Some? then "Lista atualizada com sucesso!" else "Lista criada com sucesso!";
          SaveStep(Tables(lists, kept + MemberRows(aeId, membros)), Saved(aeId, notice))
  }

  /** The two tables the form writes, changed in place by a save. */
  class ListStore {
    /** The `AEs` table. */
    var lists: seq<AeRow>
    /** The `os_onze` table. */
    var members: seq<MemberRow>

    constructor (lists: seq<AeRow>, members: seq<MemberRow>)
      ensures this.lists == lists && this.members == members
    {
      this.lists := lists;
      this.members := members;
    }

    function State(): Tables
      reads this
    {
      Tables(lists, members)
    }

    /**
     * `handleSubmit`: `editing` is the id of the list being edited, `user` the
     * signed-in user, `b` what the backend answers.
     */
    method Submit(editing: Option<int>, f: FormData, membros: seq<Membro>, user: Option<string>, b: Backend)
      returns (result: SaveResult)
      modifies this
      ensures SaveStep(State(), result) == Save(old(State()), editing, f, membros, user, b)
    {
      if user.None? {
        return NotSignedIn;
      }
      var aeData := ListPayload(f, user.value);
      var aeId: int;
      if editing.Some? {
        if b.listErr.Some? {
          return SaveFailed(SaveErrorMessage(b.listErr.value));
        }
        lists := UpdateList(lists, editing.value, aeData);
        aeId := editing.value;
        if b.deleteErr.Some? {
          return SaveFailed(SaveErrorMessage(b.deleteErr.value));
        }
        members := DeleteMembersOf(members, aeId);
      } else {
        if b.listErr.Some? {
          return SaveFailed(SaveErrorMessage(b.listErr.value));
        }
        aeId := b.newId;
        lists := lists + [StoredRow(aeId, aeData)];
      }
      if |membros| > 0 {
        if b.membersErr.Some? {
          return SaveFailed(SaveErrorMessage(b.membersErr.value));
        }
        members := members + MemberRows(aeId, membros);
      }
      result := Saved(aeId, if editing.Some? then "Lista atualizada com sucesso!" else "Lista criada com sucesso!");
    }
  }

  // ---------------------------------------------------------------------------
  // Properties of a save

  lemma MembersOfSnoc(rows: seq<MemberRow>, r: MemberRow, aeId: int)
    ensures MembersOf(rows + [r], aeId) == MembersOf(rows, aeId) + (if r.ae_id == aeId then [r] else [])
  {
    assert (rows + [r])[..|rows|] == rows;
  }

  lemma {:induction false} MembersOfAppend(a: seq<MemberRow>, b: seq<MemberRow>, aeId: int)
    ensures MembersOf(a + b, aeId) == MembersOf(a, aeId) + MembersOf(b, aeId)
    decreases |b|
  {
    if b == [] {
      assert a + b == a;
    } else {
      var init, last := b[..|b| - 1], b[|b| - 1];
      assert a + b == (a + init) + [last];
      MembersOfSnoc(a + init, last, aeId);
      MembersOfAppend(a, init, aeId);
      MembersOfSnoc(init, last, aeId);
      assert init + [last] == b;
    }
  }

  /** The rows written for one list belong to it alone, in form order. */
  lemma {:induction false} MembersOfWritten(aeId: int, ms: seq<Membro>, y: int)
    ensures MembersOf(MemberRows(aeId, ms), y) == if y == aeId then MemberRows(aeId, ms) else []
  {
    if ms != [] {
      var init := ms[..|ms| - 1];
      MembersOfWritten(aeId, init, y);
      assert MemberRows(aeId, ms) == MemberRows(aeId, init) + [MemberRowOf(aeId, ms[|ms| - 1])];
      MembersOfSnoc(MemberRows(aeId, init), MemberRowOf(aeId, ms[|ms| - 1]), y);
    }
  }

  /** Deleting one list's members empties that list and leaves every other list's members as they were. */
  lemma {:induction false} MembersOfDeleted(rows: seq<MemberRow>, aeId: int, y: int)
    ensures MembersOf(DeleteMembersOf(rows, aeId), y) == if y == aeId then [] else MembersOf(rows, y)
  {
    if rows != [] {
      var init, last := rows[..|rows| - 1], rows[|rows| - 1];
      MembersOfDeleted(init, aeId, y);
      if last.ae_id != aeId {
        MembersOfSnoc(DeleteMembersOf(init, aeId), last, y);
      }
    }
  }

  /**
   * A successful edit leaves the edited list with exactly the form's members, in
   * form order, and every other list with the members it had.
   */
  lemma EditReplacesMembers(t: Tables, id: int, f: FormData, membros: seq<Membro>, user: string, b: Backend, y: int)
    requires b.listErr.None? && b.deleteErr.None? && (membros == [] || b.membersErr.None?)
    ensures var s := Save(t, Some(id), f, membros, Some(user), b);
      && s.result == Saved(id, "Lista atualizada com sucesso!")
      && MembersOf(s.tables.members, y) == (if y == id then MemberRows(id, membros) else MembersOf(t.members, y))
  {
    var kept := DeleteMembersOf(t.members, id);
    MembersOfAppend(kept, MemberRows(id, membros), y);
    MembersOfDeleted(t.members, id, y);
    MembersOfWritten(id, membros, y);
  }

  /** A successful edit rewrites the edited list's row with the payload and no other row. */
  lemma EditUpdatesOnlyThatList(t: Tables, id: int, f: FormData, membros: seq<Membro>, user: string, b: Backend)
    requires b.listErr.None? && b.deleteErr.None?
    ensures var s := Save(t, Some(id), f, membros, Some(user), b);
      && |s.tables.lists| == |t.lists|
      && forall i :: 0 <= i < |t.lists| ==>
           s.tables.lists[i] == (if t.lists[i].id == id then StoredRow(id, ListPayload(f, user)) else t.lists[i])
  {
  }

  /**
   * A successful creation appends one list row, owned by the user, gives the new
   * list exactly the form's members when the new id had none, and leaves every
   * other list's members as they were.
   */
  lemma CreateAddsList(t: Tables, f: FormData, membros: seq<Membro>, user: string, b: Backend, y: int)
    requires b.listErr.None? && (membros == [] || b.membersErr.None?)
    requires MembersOf(t.members, b.newId) == []
    ensures var s := Save(t, None, f, membros, Some(user), b);
      && s.result == Saved(b.newId, "Lista criada com sucesso!")
      && s.tables.lists == t.lists + [StoredRow(b.newId, ListPayload(f, user))]
      && MembersOf(s.tables.members, y) == (if y == b.newId then MemberRows(b.newId, membros) else MembersOf(t.members, y))
  {
    MembersOfAppend(t.members, MemberRows(b.newId, membros), y);
    MembersOfWritten(b.newId, membros, y);
  }

  /** Without a signed-in user, or when the list write fails, neither table changes. */
  lemma NothingWrittenBeforeListWrite(t: Tables, editing: Option<int>, f: FormData, membros: seq<Membro>,
                                      user: Option<string>, b: Backend)
    requires user.None? || b.listErr.Some?
    ensures Save(t, editing, f, membros, user, b).tables == t
    ensures user.None? ==> Save(t, editing, f, membros, user, b).result == NotSignedIn
    ensures user.Some? ==> Save(t, editing, f, membros, user, b).result == SaveFailed(SaveErrorMessage(b.listErr.value))
  {
  }

  /**
   * When the member insert of an edit fails, the delete before it has already run:
   * the edited list is left with no members at all.
   */
  lemma EditFailureLeavesNoMembers(t: Tables, id: int, f: FormData, membros: seq<Membro>, user: string, b: Backend)
    requires b.listErr.None? && b.deleteErr.None? && b.membersErr.Some? && membros != []
    ensures var s := Save(t, Some(id), f, membros, Some(user), b);
      && s.result == SaveFailed(SaveErrorMessage(b.membersErr.value))
      && MembersOf(s.tables.members, id) == []
  {
    MembersOfDeleted(t.members, id, id);
  }

  /** When the delete of an edit fails, the members table is untouched though the list row was updated. */
  lemma DeleteFailureKeepsMembers(t: Tables, id: int, f: FormData, membros: seq<Membro>, user: string, b: Backend)
    requires b.listErr.None? && b.deleteErr.Some?
    ensures var s := Save(t, Some(id), f, membros, Some(user), b);
      && s.result == SaveFailed(SaveErrorMessage(b.deleteErr.value))
      && s.tables.members == t.members
      && s.tables.lists == UpdateList(t.lists, id, ListPayload(f, user))
  {
  }
}
