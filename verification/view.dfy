/**
 Which screen the page renders, chosen from `loading`, `barang`, the
 signed-in user and `requesting` in the order the component tests them, and
 which parts of a description are shown.
 */
module View {
  import opened Optional
  import opened Items
  import opened Text
  import opened Description
  import opened Store
  import opened Page

  datatype ViewState =
    | Loading                     // "Memuat data..."
    | NotFound                    // "Barang tidak ditemukan." with a link back to the list
    | ClaimedByYou                // disabled, green: "Anda berhasil mengambil donasi"
    | ClaimedByOther              // disabled: "Donasi sudah diambil"
    | ClaimButton(disabled: bool) // "Ambil Donasi", or "Memproses..." while a claim is in flight

  /** `barang.taken_by === user?.id`: a missing user (`undefined`) never equals a `taken_by`. */
  predicate IsClaimant(b: Barang, user: Option<string>) {
    user.Some? && b.takenBy == Some(user.value)
  }

  function SelectView(page: PageState, user: Option<string>): (v: ViewState)
    ensures page.loading <==> v == Loading
    ensures v == NotFound <==> !page.loading && page.barang.None?
    ensures v == ClaimedByYou <==>
      !page.loading && page.barang.Some? && page.barang.value.status == Taken && IsClaimant(page.barang.value, user)
    ensures v == ClaimedByOther <==>
      !page.loading && page.barang.Some? && page.barang.value.status == Taken && !IsClaimant(page.barang.value, user)
    ensures v.ClaimButton? <==> !page.loading && page.barang.Some? && page.barang.value.status == Available
    ensures v.ClaimButton? ==> v.disabled == page.requesting
    ensures user.None? ==> v != ClaimedByYou
  {
    if page.loading then Loading
    else if page.barang.None? then NotFound
    else
      var b := page.barang.value;
      if b.status.Taken? then
        if IsClaimant(b, user) then ClaimedByYou else ClaimedByOther
      else
        ClaimButton(page.requesting)
  }

  /** The paragraph and picture shown for a description; `None` where nothing is rendered. */
  datatype Content = Content(paragraph: Option<string>, picture: Option<string>)

  /**
   Lines `barang.description && …`, `text && <p>` and `image && <img>`:
   a null or empty description shows nothing, and an empty text or an empty
   image URL is not rendered.
   */
  function DescriptionContent(desc: Option<string>): (c: Content)
    ensures desc.None? || desc == Some("") ==> c == Content(None, None)
    ensures c.paragraph.Some? ==> c.paragraph.value != [] && Trimmed(c.paragraph.value)
    ensures c.picture.Some? ==> c.picture.value != [] && NoLineTerminator(c.picture.value)
    ensures desc.Some? ==>
      var p := ParseDescription(desc.value);
      && (c.paragraph.Some? <==> p.text != [])
      && (c.picture.Some? <==> p.image.Some? && p.image.value != [])
      && (c.paragraph.Some? ==> c.paragraph.value == p.text)
      && (c.picture.Some? ==> c.picture == p.image)
  {
    if desc.None? || desc.value == "" then Content(None, None)
    else
      var p := ParseDescription(desc.value);
      Content(if p.text == [] then None else Some(p.text),
              if p.image.Some? && p.image.value != [] then p.image else None)
  }

  /**
   What is shown for a description, in terms of the pattern's leftmost match
   `[i, j + |Close|)`: the URL between the delimiters as the picture unless it
   is empty, and the rest of the description, trimmed, as the paragraph
   unless that is empty.
   */
  lemma ContentOfFirstSpan(desc: string, i: nat, j: nat)
    requires FirstSpan(desc, i, j)
    ensures var c := DescriptionContent(Some(desc));
      && (c.picture.Some? <==> i + |Open| < j)
      && (c.picture.Some? ==> c.picture.value == desc[i + |Open|..j])
      && (c.paragraph.Some? <==> Trim(desc[..i] + desc[j + |Close|..]) != [])
      && (c.paragraph.Some? ==> c.paragraph.value == Trim(desc[..i] + desc[j + |Close|..]))
  {
    ParseFollowsFirstSpan(desc, i, j);
  }

  /**
   A description the pattern does not match shows no picture, and shows
   the whole description, trimmed, as the paragraph unless that is empty.
   */
  lemma ContentWithoutSpan(desc: string)
    requires NoSpan(desc)
    ensures var c := DescriptionContent(Some(desc));
      && c.picture.None?
      && (c.paragraph.Some? <==> Trim(desc) != [])
      && (c.paragraph.Some? ==> c.paragraph.value == Trim(desc))
  {
    ParseWithoutSpan(desc);
  }

  /** `[IMAGE][/IMAGE]` as the whole description renders nothing at all. */
  lemma EmptySpanShowsNothing()
    ensures DescriptionContent(Some(Open + Close)) == Content(None, None)
  {
    LoneSpan("");
    assert Open + "" + Close == Open + Close;
  }

  /** The claim button is enabled only while the row is available and no claim is in flight. */
  lemma EnabledOnlyWhenIdle(page: PageState, user: Option<string>)
    ensures SelectView(page, user) == ClaimButton(false) <==>
      !page.loading && !page.requesting && page.barang.Some? && page.barang.value.status == Available
  {
  }

  /**
   While a claim is in flight the button is disabled, and once the update
   answers without an error the page shows the row as claimed by the user,
   whatever the store did.
   */
  lemma ClaimThenView(page: PageState, uid: string, t: Table, error: bool)
    requires !page.loading && page.barang.Some? && page.barang.value.status == Available
    ensures SelectView(BeginClaim(page, page.barang.value, uid).0, Some(uid)) == ClaimButton(true)
    ensures var r := HandleClaim(page, Some(uid), t, error);
      SelectView(r.page, Some(uid)) == (if error then ClaimButton(false) else ClaimedByYou)
  {
  }

  /** A row that cannot be fetched, absent or not, shows the not-found screen. */
  lemma MissingRowNotFound(id: string, user: Option<string>, t: Table, transportFailed: bool)
    requires id != "" && (id !in t || transportFailed)
    ensures SelectView(Mount(Some(id), t, transportFailed), user) == NotFound
  {
  }

  /** Without a route id the page never leaves the loading screen. */
  lemma NoRouteIdKeepsLoading(user: Option<string>, t: Table, transportFailed: bool)
    ensures SelectView(Mount(None, t, transportFailed), user) == Loading
    ensures SelectView(Mount(Some(""), t, transportFailed), user) == Loading
  {
  }

  /** For a consistent row, the screen tells exactly who holds it. */
  lemma ViewOfConsistentRow(page: PageState, user: Option<string>)
    requires !page.loading && page.barang.Some? && WellFormed(page.barang.value)
    ensures var v := SelectView(page, user); var b := page.barang.value;
      && (v == ClaimedByYou <==> user.Some? && b.takenBy == Some(user.value))
      && (v == ClaimedByOther <==> b.takenBy.Some? && !(user.Some? && b.takenBy == Some(user.value)))
  {
  }

}
