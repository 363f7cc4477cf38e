// The closed set of session categories (enum BucketType).

module BucketTypes {

  import opened Entries

  datatype BucketType = POS | CTS | L | CAS

  /** The constant's identifier, as Enum.name() gives it. */
  function Name(b: BucketType): string
  {
    match b
    case POS => "POS"
    case CTS => "CTS"
    case L => "L"
    case CAS => "CAS"
  }

  /** The display label the enum's toString returns. */
  function DisplayName(b: BucketType): string
  {
    match b
    case POS => "pre open session"
    case CTS => "continuous trading session"
    case L => "lunch break"
    case CAS => "close auction session"
  }

  /** Enum.valueOf: the constant with exactly this identifier, if any. */
  function ValueOf(s: string): (r: Option<BucketType>)
    ensures r.Some? ==> Name(r.value) == s
    ensures r.None? ==> forall b: BucketType :: Name(b) != s
  {
    if s == "POS" then Some(POS)
    else if s == "CTS" then Some(CTS)
    else if s == "L" then Some(L)
    else if s == "CAS" then Some(CAS)
    else None
  }

  /**
   * isBucketType: valueOf succeeds. An unknown string is answered with false
   * rather than with the IllegalArgumentException valueOf raises.
   */
  function IsBucketType(s: string): (r: bool)
    ensures r <==> exists b: BucketType :: Name(b) == s
  {
    ValueOf(s).Some?
  }

  lemma ValueOfName(b: BucketType)
    ensures ValueOf(Name(b)) == Some(b)
  {
    match b
    case POS =>
    case CTS =>
    case L =>
    case CAS =>
  }

  /** Matching is exact: no case folding, no trimming. */
  lemma RecognisedNames()
    ensures IsBucketType("POS") && IsBucketType("CTS") && IsBucketType("L") && IsBucketType("CAS")
    ensures !IsBucketType("pos") && !IsBucketType("cts") && !IsBucketType(" CTS") && !IsBucketType("") && !IsBucketType("type")
  {
    assert Name(POS) == "POS" && Name(CTS) == "CTS" && Name(L) == "L" && Name(CAS) == "CAS";
  }
}
