/**
 * Default-locality injection (add_default_city_to_addresses and its inner
 * ensure_city_in_address in aviram.py): addresses whose trailing
 * comma-separated part names no locality get the selected institute's
 * locality appended.
 */
module AddressNormalizer {
  import opened Wrappers
  import opened Sheet

  /** Python's str.isspace() on one character. */
  predicate IsSpace(c: char) {
    ('\t' <= c <= '\r') || ('\U{1C}' <= c <= ' ') || c == '\U{85}' || c == '\U{A0}' ||
    c == '\U{1680}' || ('\U{2000}' <= c <= '\U{200A}') || c == '\U{2028}' || c == '\U{2029}' ||
    c == '\U{202F}' || c == '\U{205F}' || c == '\U{3000}'
  }

  /** Neither end of `s` is whitespace. */
  predicate IsStripped(s: string) {
    s == [] || (!IsSpace(s[0]) && !IsSpace(s[|s| - 1]))
  }

  /** `s` without its leading whitespace. */
  function TrimStart(s: string): (r: string)
    ensures |r| <= |s| && r == s[|s| - |r|..]
    ensures forall i :: 0 <= i < |s| - |r| ==> IsSpace(s[i])
    ensures r != [] ==> !IsSpace(r[0])
  {
    if s != [] && IsSpace(s[0]) then TrimStart(s[1..]) else s
  }

  /** `s` without its trailing whitespace. */
  function TrimEnd(s: string): (r: string)
    ensures |r| <= |s| && r == s[..|r|]
    ensures forall i :: |r| <= i < |s| ==> IsSpace(s[i])
    ensures r != [] ==> !IsSpace(r[|r| - 1])
  {
    if s != [] && IsSpace(s[|s| - 1]) then TrimEnd(s[..|s| - 1]) else s
  }

  /** Python's str.strip() with no argument. */
  function Strip(s: string): (r: string)
    ensures IsStripped(r)
    ensures forall c :: c in r ==> c in s
    ensures IsStripped(s) ==> r == s
    ensures exists i, j ::
      (0 <= i <= j <= |s| && r == s[i..j] &&
       (forall k :: 0 <= k < i ==> IsSpace(s[k])) && (forall k :: j <= k < |s| ==> IsSpace(s[k])))
  {
    var t := TrimStart(s);
    var r := TrimEnd(t);
    TrimmedSlice(s, t, r, IsSpace);
    r
  }

  /**
   * Dropping a prefix of `s` whose characters satisfy `p`, then a suffix of
   * the rest whose characters satisfy `p`, leaves a slice of `s` with `p`
   * holding on everything before and after it.
   */
  lemma TrimmedSlice(s: string, t: string, r: string, p: char -> bool)
    requires |t| <= |s| && t == s[|s| - |t|..] && forall k :: 0 <= k < |s| - |t| ==> p(s[k])
    requires |r| <= |t| && r == t[..|r|] && forall k :: |r| <= k < |t| ==> p(t[k])
    ensures r == s[|s| - |t|..|s| - |t| + |r|]
    ensures forall k :: 0 <= k < |s| - |t| ==> p(s[k])
    ensures forall k :: |s| - |t| + |r| <= k < |s| ==> p(s[k])
  {
    var i := |s| - |t|;
    forall k | i + |r| <= k < |s|
      ensures p(s[k])
    {
      assert s[k] == t[k - i];
    }
  }

  /** Python's s.split(',')[-1]: the text after the last comma, or all of `s` when it has none. */
  function LastSegment(s: string): (r: string)
    ensures |r| <= |s| && r == s[|s| - |r|..]
    ensures ',' !in r
    ensures |r| < |s| ==> s[|s| - |r| - 1] == ','
  {
    if s == [] || s[|s| - 1] == ',' then []
    else LastSegment(s[..|s| - 1]) + [s[|s| - 1]]
  }

  /** Python's str.isdigit(), restricted to the ASCII digits. */
  predicate IsDigits(s: string) {
    |s| > 0 && forall i :: 0 <= i < |s| ==> '0' <= s[i] <= '9'
  }

  /**
   * The locality taken from the selected institute's address: its last
   * comma-separated part, trimmed; the whole trimmed address when it has no
   * comma.
   */
  function DefaultCity(schoolAddress: string): (city: string)
    ensures ',' !in city && IsStripped(city)
    ensures ',' !in schoolAddress ==> city == Strip(schoolAddress)
    ensures ',' in schoolAddress ==> exists k ::
      (0 <= k < |schoolAddress| && schoolAddress[k] == ',' &&
       ',' !in schoolAddress[k + 1..] && city == Strip(schoolAddress[k + 1..]))
  {
    var seg := LastSegment(schoolAddress);
    assert ',' in schoolAddress ==> |seg| < |schoolAddress| && schoolAddress[|schoolAddress| - |seg| - 1 + 1..] == seg;
    Strip(seg)
  }

  /**
   * An address names no locality: it has no comma, or its trimmed trailing
   * part is empty or a bare number.
   */
  predicate LacksLocality(a: string) {
    ',' !in a || Strip(LastSegment(a)) == "" || IsDigits(Strip(LastSegment(a)))
  }

  /** A locality that, once appended, is itself recognised as one. */
  predicate IsLocality(city: string) {
    ',' !in city && IsStripped(city) && city != "" && !IsDigits(city)
  }

  /**
   * ensure_city_in_address: a missing value passes through; an address that
   * names no locality gets ", " and the default city appended; any other
   * address is returned unchanged.
   */
  function EnsureCityInAddress(city: string, cell: Cell): (r: Cell)
    ensures cell.Missing? ==> r == cell
    ensures cell.Text? ==> r.Text? && cell.s <= r.s
    ensures cell.Text? && LacksLocality(cell.s) ==> r.s == cell.s + ", " + city
    ensures cell.Text? && !LacksLocality(cell.s) ==> r == cell
  {
    match cell
    case Missing => cell
    case Text(a) =>
      if ',' !in a then Text(a + ", " + city)
      else
        var lastPart := Strip(LastSegment(a));
        if lastPart == "" || IsDigits(lastPart) then Text(a + ", " + city)
        else cell
  }

  lemma {:induction false} LastSegmentAfterComma(a: string, tail: string)
    requires ',' !in tail
    ensures LastSegment(a + "," + tail) == tail
    decreases |tail|
  {
    var s := a + "," + tail;
    if tail != [] {
      var init := tail[..|tail| - 1];
      assert s[..|s| - 1] == a + "," + init;
      LastSegmentAfterComma(a, init);
      assert tail == init + [tail[|tail| - 1]];
    } else {
      assert s[|s| - 1] == ',';
    }
  }

  lemma StripLeadingSpace(city: string)
    requires IsStripped(city)
    ensures Strip(" " + city) == city
  {
    assert (" " + city)[1..] == city;
  }

  /**
   * After ", " + city is appended, the address's trimmed trailing part is
   * that city, so the address is recognised as naming a locality.
   */
  lemma AppendedCityIsRecognised(a: string, city: string)
    requires IsLocality(city)
    ensures Strip(LastSegment(a + ", " + city)) == city
    ensures !LacksLocality(a + ", " + city)
  {
    var s := a + ", " + city;
    assert s == a + "," + (" " + city);
    LastSegmentAfterComma(a, " " + city);
    StripLeadingSpace(city);
    assert s[|a|] == ',';
  }

  /** With a usable default city, every present address ends up naming a locality. */
  lemma EnsureCityProvidesLocality(city: string, cell: Cell)
    requires IsLocality(city) && cell.Text?
    ensures EnsureCityInAddress(city, cell).Text?
    ensures !LacksLocality(EnsureCityInAddress(city, cell).s)
  {
    if LacksLocality(cell.s) {
      AppendedCityIsRecognised(cell.s, city);
    }
  }

  /** With a usable default city, normalising an address twice is normalising it once. */
  lemma EnsureCityIdempotent(city: string, cell: Cell)
    requires IsLocality(city)
    ensures EnsureCityInAddress(city, EnsureCityInAddress(city, cell)) == EnsureCityInAddress(city, cell)
  {
    if cell.Text? {
      EnsureCityProvidesLocality(city, cell);
    }
  }

  lemma StripBlank()
    ensures Strip(" ") == ""
  {
    assert " "[1..] == "";
  }

  /** An address ending in ", " has an empty trailing part, so it names no locality. */
  lemma TrailingSeparatorLacksLocality(a: string)
    ensures LacksLocality(a + ", ")
  {
    LastSegmentAfterComma(a, " ");
    assert a + "," + " " == a + ", ";
    StripBlank();
  }

  lemma SeparatorTwice(a: string)
    ensures a + ", " + ", " + "" == a + ", , "
  {
  }

  lemma EmptyCitySecondPass(a: string)
    ensures EnsureCityInAddress("", Text(a + ", ")) == Text(a + ", , ")
  {
    TrailingSeparatorLacksLocality(a);
    SeparatorTwice(a);
  }

  /**
   * With an empty default city the rule is not idempotent: an address
   * without a comma gains ", ", whose trimmed trailing part is empty, so a
   * second pass appends again.
   */
  lemma EnsureCityNotIdempotentForEmptyCity(a: string)
    requires ',' !in a
    ensures EnsureCityInAddress("", Text(a)) == Text(a + ", ")
    ensures EnsureCityInAddress("", EnsureCityInAddress("", Text(a))) == Text(a + ", , ")
  {
    assert LacksLocality(a);
    assert a + ", " == a + ", " + "";
    EmptyCitySecondPass(a);
  }

  /** The index of the first row whose institute cell equals `selected`. */
  function FirstExactMatch(rows: seq<Row>, selected: string): (r: Option<nat>)
    ensures r.Some? ==> r.value < |rows| && rows[r.value].institute == Text(selected)
    ensures r.Some? ==> forall j :: 0 <= j < r.value ==> rows[j].institute != Text(selected)
    ensures r.None? <==> forall j :: 0 <= j < |rows| ==> rows[j].institute != Text(selected)
  {
    if rows == [] then None
    else if rows[0].institute == Text(selected) then Some(0)
    else
      match FirstExactMatch(rows[1..], selected)
      case None => None
      case Some(i) => Some(i + 1)
  }

  /**
   * The default city of the first row whose institute is exactly `selected`;
   * None where the source's `.iloc[0]` on an empty selection raises.
   */
  function SchoolCity(rows: seq<Row>, selected: string): (r: Option<string>)
    ensures r.None? <==> forall j :: 0 <= j < |rows| ==> rows[j].institute != Text(selected)
    ensures r.Some? ==> exists i ::
      (0 <= i < |rows| && rows[i].institute == Text(selected) &&
       (forall j :: 0 <= j < i ==> rows[j].institute != Text(selected)) &&
       r.value == DefaultCity(CellText(rows[i].address)))
  {
    match FirstExactMatch(rows, selected)
    case None => None
    case Some(i) => Some(DefaultCity(CellText(rows[i].address)))
  }

  /** The address column with ensure_city_in_address applied to every cell. */
  function NormalizeColumn(rows: seq<Row>, city: string): (r: seq<Row>)
    ensures |r| == |rows|
    ensures forall i :: 0 <= i < |rows| ==>
      r[i].institute == rows[i].institute && r[i].address == EnsureCityInAddress(city, rows[i].address)
  {
    seq(|rows|, i requires 0 <= i < |rows| => rows[i].(address := EnsureCityInAddress(city, rows[i].address)))
  }

  /**
   * add_default_city_to_addresses: fails when no institute cell equals
   * `selected`; otherwise normalises every address with that row's city and
   * leaves every institute cell alone.
   */
  function AddDefaultCityToAddresses(rows: seq<Row>, selected: string): (r: Option<seq<Row>>)
    ensures r.None? <==> forall j :: 0 <= j < |rows| ==> rows[j].institute != Text(selected)
    ensures r.Some? ==> |r.value| == |rows|
    ensures r.Some? ==> forall i :: 0 <= i < |rows| ==> r.value[i].institute == rows[i].institute
    ensures r.Some? ==> SchoolCity(rows, selected).Some?
    ensures r.Some? ==> forall i :: 0 <= i < |rows| ==>
      r.value[i].address == EnsureCityInAddress(SchoolCity(rows, selected).value, rows[i].address)
    ensures r.Some? ==> (forall i :: 0 <= i < |rows| ==>
      (r.value[i].address == rows[i].address ||
       (rows[i].address.Text? && r.value[i].address == Text(rows[i].address.s + ", " + SchoolCity(rows, selected).value))))
  {
    match SchoolCity(rows, selected)
    case None => None
    case Some(city) => Some(NormalizeColumn(rows, city))
  }

  /** With a usable default city, every present address names a locality afterwards. */
  lemma AddDefaultCityProvidesLocality(rows: seq<Row>, selected: string)
    requires SchoolCity(rows, selected).Some? && IsLocality(SchoolCity(rows, selected).value)
    ensures AddDefaultCityToAddresses(rows, selected).Some?
    ensures var r := AddDefaultCityToAddresses(rows, selected).value;
      forall i :: 0 <= i < |r| && r[i].address.Text? ==> !LacksLocality(r[i].address.s)
  {
    var city := SchoolCity(rows, selected).value;
    var r := AddDefaultCityToAddresses(rows, selected).value;
    forall i | 0 <= i < |r| && r[i].address.Text?
      ensures !LacksLocality(r[i].address.s)
    {
      EnsureCityProvidesLocality(city, rows[i].address);
    }
  }

  /** Normalising a cell whose own default city is `city` leaves that default city unchanged. */
  lemma EnsureCityKeepsDefaultCity(city: string, cell: Cell)
    requires IsLocality(city) && DefaultCity(CellText(cell)) == city
    ensures DefaultCity(CellText(EnsureCityInAddress(city, cell))) == city
  {
    if cell.Text? && LacksLocality(cell.s) {
      AppendedCityIsRecognised(cell.s, city);
    }
  }

  /** The first exact match depends only on the institute column. */
  lemma FirstExactMatchOnInstitutes(rows: seq<Row>, other: seq<Row>, selected: string)
    requires |other| == |rows|
    requires forall j :: 0 <= j < |rows| ==> other[j].institute == rows[j].institute
    ensures FirstExactMatch(other, selected) == FirstExactMatch(rows, selected)
  {
    var a, b := FirstExactMatch(rows, selected), FirstExactMatch(other, selected);
    if a.Some? {
      assert other[a.value].institute == Text(selected);
      assert b.Some? && b.value == a.value;
    }
  }

  /** Normalising the sheet leaves the selected institute's default city unchanged. */
  lemma SchoolCityStable(rows: seq<Row>, selected: string)
    requires SchoolCity(rows, selected).Some? && IsLocality(SchoolCity(rows, selected).value)
    ensures SchoolCity(AddDefaultCityToAddresses(rows, selected).value, selected) == SchoolCity(rows, selected)
  {
    var city := SchoolCity(rows, selected).value;
    var r := NormalizeColumn(rows, city);
    var i := FirstExactMatch(rows, selected).value;
    FirstExactMatchOnInstitutes(rows, r, selected);
    EnsureCityKeepsDefaultCity(city, rows[i].address);
  }

  /** With a usable city, normalising the address column twice is normalising it once. */
  lemma NormalizeColumnIdempotent(rows: seq<Row>, city: string)
    requires IsLocality(city)
    ensures NormalizeColumn(NormalizeColumn(rows, city), city) == NormalizeColumn(rows, city)
  {
    var once := NormalizeColumn(rows, city);
    var twice := NormalizeColumn(once, city);
    forall i | 0 <= i < |once|
      ensures twice[i] == once[i]
    {
      EnsureCityIdempotent(city, rows[i].address);
    }
  }

  /**
   * With a usable default city, normalising a whole sheet twice gives the
   * same sheet as normalising it once.
   */
  lemma AddDefaultCityIdempotent(rows: seq<Row>, selected: string)
    requires SchoolCity(rows, selected).Some? && IsLocality(SchoolCity(rows, selected).value)
    ensures var once := AddDefaultCityToAddresses(rows, selected).value;
      AddDefaultCityToAddresses(once, selected) == Some(once)
  {
    var city := SchoolCity(rows, selected).value;
    SchoolCityStable(rows, selected);
    NormalizeColumnIdempotent(rows, city);
  }
}
