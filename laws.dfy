/** The records the portal parser reads and the act it produces. */
module Laws {
  import opened TextBasics
  import opened Definitions

  datatype Status = InForce | Amended | Repealed | NotYetInForce

  datatype LawAttachment = LawAttachment(title: String, href: String)

  /** A law as described by its page on the investment portal. */
  datatype PortalLawDetail = PortalLawDetail(
    lawNumber: String,
    lawYear: String,
    titleEn: String,
    titleAr: Option<String>,
    shortName: String,
    status: Status,
    issuedDate: Option<String>,
    effectiveDate: Option<String>,
    description: Option<String>,
    detailUrl: String,
    attachments: seq<LawAttachment>)

  /** A law as described by its page on the legal archive. */
  datatype ManshuratLawDetail = ManshuratLawDetail(
    nodeId: String,
    titleAr: String,
    lawNumber: String,
    lawYear: String,
    shortName: String,
    status: Status,
    issuedDate: Option<String>,
    effectiveDate: Option<String>,
    issuingAuthority: Option<String>,
    sector: Option<String>,
    description: Option<String>,
    detailUrl: String,
    pdfDownloadPath: Option<String>)

  datatype Provision = Provision(provisionRef: String, section: String, title: String, content: String)

  /** The act assembled from a law's PDF text. */
  datatype Act = Act(
    id: String,
    title: String,
    titleEn: Option<String>,
    shortName: String,
    status: Status,
    issuedDate: Option<String>,
    inForceDate: Option<String>,
    url: String,
    description: String,
    provisions: seq<Provision>,
    definitions: seq<Definition>)
}
