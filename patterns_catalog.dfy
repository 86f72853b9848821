/**
 * The detector catalog of badger-new/src/lib/patterns.ts (lines 8-212).
 *
 * A detector ("pattern") has a name, a regular expression, a description and
 * one of six categories. The text of each regular expression is not
 * modelled: an expression of the catalog is named by the line that holds it.
 */
module PatternCatalog {
  import opened JsCollections

  datatype Category = Crypto | Network | Personal | Financial | Identifiers | Security

  /**
   * The text of an expression: one of the regular-expression literals of
   * the catalog, named by the line of badger-new/src/lib/patterns.ts that
   * holds it, or the text a user typed for a custom pattern.
   */
  datatype Source = Literal(line: nat) | UserText(text: string)

  /** A compiled expression: its text and the two flags the catalog uses. */
  datatype Regex = Regex(source: Source, global: bool, ignoreCase: bool)

  datatype Pattern = Pattern(name: string, regex: Regex, description: string, category: Category)

  /** The literal `/.../g` at `line` of patterns.ts. */
  function Global(line: nat): Regex {
    Regex(Literal(line), true, false)
  }

  /** The literal `/.../gi` at `line` of patterns.ts. */
  function GlobalIgnoreCase(line: nat): Regex {
    Regex(Literal(line), true, true)
  }

  /** `PATTERNS`, in declaration order. */
  const Catalog: seq<Pattern> := [
    // crypto
    Pattern("Bitcoin Address", Global(12), "Legacy, SegWit, Bech32", Crypto),
    Pattern("Ethereum Address", Global(18), "Indirizzo ETH", Crypto),
    Pattern("Ethereum Transaction", Global(24), "TX Hash ETH", Crypto),
    Pattern("Monero Address", Global(30), "Indirizzo XMR", Crypto),
    Pattern("Tron Address", Global(36), "Indirizzo TRX", Crypto),
    Pattern("Transaction Hash", Global(42), "Hash 64 caratteri", Crypto),
    // network
    Pattern("IP Address", Global(50), "IPv4", Network),
    Pattern("IPv6 Address", Global(56), "Indirizzo IPv6", Network),
    Pattern("MAC Address", Global(62), "Indirizzo MAC", Network),
    Pattern("URL", Global(68), "Link HTTP/HTTPS", Network),
    // personal
    Pattern("Email", Global(76), "Indirizzi email", Personal),
    Pattern("Phone Number (IT)", Global(82), "Telefono italiano", Personal),
    Pattern("Phone Number (International)", Global(88), "Telefono internazionale", Personal),
    Pattern("IMEI", Global(94), "IMEI dispositivo", Personal),
    Pattern("GPS Coordinates", GlobalIgnoreCase(100), "Coordinate GPS", Personal),
    Pattern("Date (DD/MM/YYYY)", Global(106), "Data formato italiano", Personal),
    Pattern("Date (YYYY-MM-DD)", Global(112), "Data formato ISO", Personal),
    // financial
    Pattern("Credit Card", Global(120), "Carta di credito", Financial),
    Pattern("IBAN", Global(126), "IBAN bancario", Financial),
    Pattern("SWIFT Code", Global(132), "Codice SWIFT", Financial),
    // identifiers
    Pattern("Codice Fiscale (IT)", Global(140), "Codice fiscale italiano", Identifiers),
    Pattern("Partita IVA (IT)", Global(146), "Partita IVA italiana", Identifiers),
    Pattern("Username (Twitter/X)", Global(152), "Username Twitter/X", Identifiers),
    Pattern("Username (Instagram)", Global(158), "Username Instagram", Identifiers),
    Pattern("ISBN", Global(164), "ISBN libro", Identifiers),
    // security
    Pattern("API Key (AWS)", Global(172), "AWS Access Key", Security),
    Pattern("API Key (GitHub)", Global(178), "GitHub Token", Security),
    Pattern("JWT Token", Global(184), "JWT Token", Security),
    Pattern("MD5 Hash", Global(190), "Hash MD5", Security),
    Pattern("SHA1 Hash", Global(196), "Hash SHA1", Security),
    Pattern("SHA256 Hash", Global(202), "Hash SHA256", Security),
    Pattern("Private Key (SSH)", Global(208), "Chiave privata SSH", Security)
  ]

  /** Position of a category in the order the catalog groups them. */
  function CategoryRank(c: Category): nat {
    match c
    case Crypto => 0
    case Network => 1
    case Personal => 2
    case Financial => 3
    case Identifiers => 4
    case Security => 5
  }

  /** `pats.map(p => p.name)` */
  function Names(pats: seq<Pattern>): (names: seq<string>)
    ensures |names| == |pats|
    ensures forall i :: 0 <= i < |pats| ==> names[i] == pats[i].name
  {
    seq(|pats|, i requires 0 <= i < |pats| => pats[i].name)
  }

  /** The catalog has 32 entries, each with a name and a description and each scanning globally. */
  lemma CatalogEntries()
    ensures |Catalog| == 32
    ensures forall i :: 0 <= i < |Catalog| ==> Catalog[i].name != [] && Catalog[i].description != []
    ensures forall i :: 0 <= i < |Catalog| ==> Catalog[i].regex.global
  {
  }

  /** "GPS Coordinates" is the only case-insensitive detector. */
  lemma CatalogCaseFlags()
    ensures forall i :: 0 <= i < |Catalog| ==> (Catalog[i].regex.ignoreCase <==> Catalog[i].name == "GPS Coordinates")
  {
  }

  /** No two catalog entries share a name. */
  lemma CatalogNamesDistinct()
    ensures forall i, j :: 0 <= i < j < |Catalog| ==> Catalog[i].name != Catalog[j].name
  {
  }

  /** Each entry's category comes no earlier than the previous entry's. */
  ghost predicate StepwiseGrouped(pats: seq<Pattern>) {
    forall i :: 0 < i < |pats| ==> CategoryRank(pats[i - 1].category) <= CategoryRank(pats[i].category)
  }

  lemma {:induction false} StepwiseGroupedMeansGrouped(pats: seq<Pattern>)
    requires StepwiseGrouped(pats)
    ensures forall i, j :: 0 <= i < j < |pats| ==> CategoryRank(pats[i].category) <= CategoryRank(pats[j].category)
  {
    if pats != [] {
      var n := |pats| - 1;
      assert forall i :: 0 <= i < n ==> pats[..n][i] == pats[i];
      StepwiseGroupedMeansGrouped(pats[..n]);
      forall i | 0 <= i < n
        ensures CategoryRank(pats[i].category) <= CategoryRank(pats[n].category)
      {
        assert CategoryRank(pats[i].category) <= CategoryRank(pats[n - 1].category);
      }
    }
  }

  /** The categories form contiguous groups in the order crypto, network, personal, financial, identifiers, security. */
  lemma CatalogGroupedByCategory()
    ensures forall i, j :: 0 <= i < j < |Catalog| ==> CategoryRank(Catalog[i].category) <= CategoryRank(Catalog[j].category)
  {
    assert StepwiseGrouped(Catalog);
    StepwiseGroupedMeansGrouped(Catalog);
  }

  /** Some catalog entry has category `c`. */
  ghost predicate HasCategory(c: Category) {
    exists i :: 0 <= i < |Catalog| && Catalog[i].category == c
  }

  /** Every category has at least one detector. */
  lemma CatalogCoversCategories()
    ensures forall c: Category :: HasCategory(c)
  {
    forall c: Category ensures HasCategory(c) {
      var i := match c
        case Crypto => 0 case Network => 6 case Personal => 10
        case Financial => 17 case Identifiers => 20 case Security => 25;
      assert Catalog[i].category == c;
    }
  }
}
