/**
 * The vendor table (components/vendor-management/vendor-table.tsx) as the
 * view it renders: one row per vendor on the current page, or a single
 * placeholder row, and pagination links that keep the other query
 * parameters. Rendering itself is left out; `RenderTable` returns the
 * content of each cell and the target of each link.
 */
module VendorTable {
  import opened Wrappers
  import opened JsText
  import opened UrlSearchParams

  /** A vendor as the list shows it. */
  datatype Vendor = Vendor(
    id: string,
    fullName: Option<string>,
    shopName: Option<string>,
    contactNumber: Option<string>,
    approvalStatus: Option<string>)

  /** The badge variants `statusVariant` chooses from. */
  datatype BadgeVariant = Success | Secondary | Destructive | Blocked | Outline

  /** One table row. */
  datatype Row = Row(
    serial: int,
    name: string,
    shop: string,
    phone: string,
    status: Option<string>,
    variant: BadgeVariant,
    detailHref: string)

  /** The table body: the placeholder row, or the vendors' rows. */
  datatype Body = Placeholder(colSpan: nat, message: string) | Rows(rows: seq<Row>)

  /** The pagination bar: the "Previous" link, the current page and the "Next" link. */
  datatype PaginationBar = PaginationBar(previous: Option<string>, current: int, next: Option<string>)

  /** What the table shows: its body and, when there is another page, the pagination bar. */
  datatype TableView = TableView(body: Body, pagination: Option<PaginationBar>)

  /** The number of columns of the table (S.no., name, shop, phone, status, action). */
  const Columns: nat := 6

  // -----------------------------------------------------------------------
  // Status badge
  // -----------------------------------------------------------------------

  /**
   * `statusVariant(status)`: the badge for a status, ignoring case;
   * anything other than the four statuses (a missing one included) gets
   * the neutral outline.
   */
  function StatusVariant(status: Option<string>): (v: BadgeVariant)
    ensures v == Success <==> status.Some? && ToLower(status.value) == "approved"
    ensures v == Secondary <==> status.Some? && ToLower(status.value) == "pending"
    ensures v == Destructive <==> status.Some? && ToLower(status.value) == "rejected"
    ensures v == Blocked <==> status.Some? && ToLower(status.value) == "blocked"
  {
    if status.None? then Outline
    else
      match ToLower(status.value)
      case "approved" => Success
      case "pending" => Secondary
      case "rejected" => Destructive
      case "blocked" => Blocked
      case _ => Outline
  }

  /** The badge does not depend on case: lower-casing the status first changes nothing. */
  lemma StatusVariantIgnoresCase(s: string)
    ensures StatusVariant(Some(ToLower(s))) == StatusVariant(Some(s))
  {
    ToLowerIdempotent(s);
  }

  /** The approved and pending statuses get the success and secondary badges. */
  lemma StatusVariantOfApprovedAndPending()
    ensures StatusVariant(Some("approved")) == Success
    ensures StatusVariant(Some("pending")) == Secondary
  {
    LowerOfLowerCase("approved");
    LowerOfLowerCase("pending");
  }

  /** The rejected and blocked statuses get the destructive and blocked badges. */
  lemma StatusVariantOfRejectedAndBlocked()
    ensures StatusVariant(Some("rejected")) == Destructive
    ensures StatusVariant(Some("blocked")) == Blocked
  {
    LowerOfLowerCase("rejected");
    LowerOfLowerCase("blocked");
  }

  /** A capitalised status gets the same badge as the lower-case one. */
  lemma StatusVariantOfCapitalised()
    ensures StatusVariant(Some("Approved")) == Success
  {
    LowerOfLowerCase("pproved");
    assert "Approved"[1..] == "pproved";
    assert ToLower("Approved") == [LowerChar('A')] + ToLower("pproved");
  }

  /** Lower-casing a string of lower-case ASCII letters changes nothing. */
  lemma {:induction false} LowerOfLowerCase(s: string)
    requires forall i :: 0 <= i < |s| ==> 'a' <= s[i] <= 'z'
    ensures ToLower(s) == s
  {
    if s != [] {
      LowerOfLowerCase(s[1..]);
    }
  }

  // -----------------------------------------------------------------------
  // Cells
  // -----------------------------------------------------------------------

  /**
   * `field?.trim() || "N/A"`: the trimmed text, or "N/A" when the field is
   * missing or only white space.
   */
  function CellText(field: Option<string>): (r: string)
    ensures r != ""
    ensures field.None? || AllWhiteSpace(field.value) ==> r == "N/A"
    ensures field.Some? && !AllWhiteSpace(field.value) ==>
      && (exists k :: TrimmedAt(field.value, k, r))
      && !IsWhiteSpace(r[0]) && !IsWhiteSpace(r[|r| - 1])
  {
    if field.Some? && Trim(field.value) != "" then Trim(field.value) else "N/A"
  }

  /** A field that is already trimmed and not empty is shown as it is. */
  lemma CellTextOfTrimmed(s: string)
    requires s != "" && !IsWhiteSpace(s[0]) && !IsWhiteSpace(s[|s| - 1])
    ensures CellText(Some(s)) == s
  {
    var r := Trim(s);
    var k: nat :| TrimmedAt(s, k, r);
  }

  // -----------------------------------------------------------------------
  // Serial numbers
  // -----------------------------------------------------------------------

  /** The serial number of the row at `index` (from 0) on page `page`. */
  function Serial(page: int, limit: int, index: int): int {
    (page - 1) * limit + index + 1
  }

  /** Serial numbers on a page are consecutive and so strictly increasing. */
  lemma SerialsConsecutive(page: int, limit: int, i: int, j: int)
    requires i <= j
    ensures Serial(page, limit, j) == Serial(page, limit, i) + (j - i)
  {
  }

  /** On a page of at most `limit` rows the serials lie in ((page-1)*limit, page*limit]. */
  lemma SerialBounds(page: int, limit: int, index: int)
    requires page >= 1 && limit >= 1 && 0 <= index < limit
    ensures (page - 1) * limit + 1 <= Serial(page, limit, index) <= page * limit
  {
    assert page * limit == (page - 1) * limit + limit;
  }

  /** Every serial of an earlier page is smaller than every serial of a later page. */
  lemma PagesDoNotOverlap(p1: int, p2: int, limit: int, i: int, j: int)
    requires 1 <= p1 < p2 && limit >= 1 && 0 <= i < limit && 0 <= j < limit
    ensures Serial(p1, limit, i) < Serial(p2, limit, j)
  {
    SerialBounds(p1, limit, i);
    SerialBounds(p2, limit, j);
    MulMonotone(p1, p2 - 1, limit);
  }

  lemma {:induction false} MulMonotone(a: int, b: int, c: nat)
    requires a <= b
    ensures a * c <= b * c
    decreases b - a
  {
    if a < b {
      MulMonotone(a, b - 1, c);
      assert b * c == (b - 1) * c + c;
    }
  }

  // -----------------------------------------------------------------------
  // Links
  // -----------------------------------------------------------------------

  /** The list's path. */
  const ListPath: string := "/vendor-management"

  /** The URL `createPageURL(pageNumber)` builds. */
  function PageURL(params: seq<Pair>, pageNumber: int): string {
    ListPath + "?" + Serialize(Updated(params, "page", IntToString(pageNumber)))
  }

  /**
   * `createPageURL(pageNumber)`: copy the current parameters, set "page" to
   * the number's decimal text, and ask for the list with that query.
   */
  method CreatePageURL(params: seq<Pair>, pageNumber: int) returns (url: string)
    ensures url == PageURL(params, pageNumber)
  {
    var copy := new Params(params);
    copy.Set("page", IntToString(pageNumber));
    url := ListPath + "?" + Serialize(copy.list);
  }

  /**
   * The parameters of a page link: "page" is exactly the page number's
   * decimal text, which reads back as the number (after the '-' of a
   * negative one), and every other
   * parameter keeps its values and their order.
   */
  lemma PageLinkParams(params: seq<Pair>, pageNumber: int, other: string)
    requires other != "page"
    ensures var linked := Updated(params, "page", IntToString(pageNumber));
      && Values(linked, "page") == [IntToString(pageNumber)]
      && Values(linked, other) == Values(params, other)
      && Removed(linked, "page") == Removed(params, "page")
      && (pageNumber >= 0 ==> DecimalValue(IntToString(pageNumber)) == pageNumber)
      && (pageNumber < 0 ==> DecimalValue(IntToString(pageNumber)[1..]) == -pageNumber)
  {
    UpdatedValues(params, "page", IntToString(pageNumber), "page");
    UpdatedValues(params, "page", IntToString(pageNumber), other);
    UpdatedRemoved(params, "page", IntToString(pageNumber));
    if pageNumber >= 0 {
      DecimalValueOfNatToString(pageNumber);
    } else {
      assert IntToString(pageNumber)[1..] == NatToString(-pageNumber);
      DecimalValueOfNatToString(-pageNumber);
    }
  }

  /** The link to a vendor's details: its id in the path, then the current query, if any. */
  function DetailHref(id: string, params: seq<Pair>): (href: string)
    ensures params == [] ==> href == ListPath + "/" + id
    ensures params != [] ==> href == ListPath + "/" + id + "?" + Serialize(params) && Serialize(params) != ""
  {
    SerializeEmpty(params);
    ListPath + "/" + id + (if |params| > 0 then "?" + Serialize(params) else "")
  }

  // -----------------------------------------------------------------------
  // The table
  // -----------------------------------------------------------------------

  /** The row of the vendor at `index` on page `page`. */
  function RowFor(vendor: Vendor, page: int, limit: int, index: int, params: seq<Pair>): Row {
    Row(
      Serial(page, limit, index),
      CellText(vendor.fullName),
      CellText(vendor.shopName),
      CellText(vendor.contactNumber),
      vendor.approvalStatus,
      StatusVariant(vendor.approvalStatus),
      DetailHref(vendor.id, params))
  }

  /** The table's body: a placeholder spanning all columns, or one row per vendor. */
  function BodyFor(vendors: seq<Vendor>, page: int, limit: int, params: seq<Pair>): Body {
    if |vendors| > 0 then
      Rows(seq(|vendors|, i requires 0 <= i < |vendors| => RowFor(vendors[i], page, limit, i, params)))
    else
      Placeholder(Columns, "No vendors found.")
  }

  /** The pagination bar, present only when there is a previous or a next page. */
  function PaginationFor(currentPage: int, hasNextPage: bool, params: seq<Pair>): Option<PaginationBar> {
    if currentPage > 1 || hasNextPage then
      Some(PaginationBar(
        if currentPage > 1 then Some(PageURL(params, currentPage - 1)) else None,
        currentPage,
        if hasNextPage then Some(PageURL(params, currentPage + 1)) else None))
    else None
  }

  /** `VendorTable({ vendors, currentPage, hasNextPage, limit })` with the current query `params`. */
  function RenderTable(vendors: seq<Vendor>, currentPage: int, hasNextPage: bool, limit: int, params: seq<Pair>): TableView {
    TableView(BodyFor(vendors, currentPage, limit, params), PaginationFor(currentPage, hasNextPage, params))
  }

  // -----------------------------------------------------------------------
  // Properties of the table
  // -----------------------------------------------------------------------

  /** An empty list shows exactly one placeholder row spanning the six columns. */
  lemma EmptyListPlaceholder(currentPage: int, hasNextPage: bool, limit: int, params: seq<Pair>)
    ensures RenderTable([], currentPage, hasNextPage, limit, params).body
      == Placeholder(6, "No vendors found.")
  {
  }

  /**
   * A non-empty list shows one row per vendor, in order: row i has serial
   * (page-1)*limit + i + 1, the vendor's cells, its badge (the status as
   * label, with its variant) and its detail link.
   */
  lemma RowsOfVendors(vendors: seq<Vendor>, currentPage: int, hasNextPage: bool, limit: int, params: seq<Pair>, i: int)
    requires 0 <= i < |vendors|
    ensures var body := RenderTable(vendors, currentPage, hasNextPage, limit, params).body;
      && body.Rows? && |body.rows| == |vendors|
      && body.rows[i].serial == (currentPage - 1) * limit + i + 1
      && body.rows[i].name == CellText(vendors[i].fullName)
      && body.rows[i].shop == CellText(vendors[i].shopName)
      && body.rows[i].phone == CellText(vendors[i].contactNumber)
      && body.rows[i].status == vendors[i].approvalStatus
      && body.rows[i].variant == StatusVariant(vendors[i].approvalStatus)
      && body.rows[i].detailHref == DetailHref(vendors[i].id, params)
  {
  }

  /**
   * The pagination bar is shown exactly when there is a previous page or a
   * next page; "Previous" is there exactly on pages after the first and
   * leads to the page before, "Next" exactly when there is a next page and
   * leads to the page after, and the bar shows the current page.
   */
  lemma PaginationRules(vendors: seq<Vendor>, currentPage: int, hasNextPage: bool, limit: int, params: seq<Pair>)
    ensures var bar := RenderTable(vendors, currentPage, hasNextPage, limit, params).pagination;
      && (bar.Some? <==> currentPage > 1 || hasNextPage)
      && (bar.Some? ==>
            && bar.value.current == currentPage
            && (bar.value.previous.Some? <==> currentPage > 1)
            && (bar.value.previous.Some? ==> bar.value.previous.value == PageURL(params, currentPage - 1))
            && (bar.value.next.Some? <==> hasNextPage)
            && (bar.value.next.Some? ==> bar.value.next.value == PageURL(params, currentPage + 1)))
  {
  }

  /** Page 1 of a list without a next page has no pagination bar. */
  lemma SinglePageHasNoBar(vendors: seq<Vendor>, limit: int, params: seq<Pair>)
    ensures RenderTable(vendors, 1, false, limit, params).pagination == None
  {
  }
}
