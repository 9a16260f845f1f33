/** The records the pipeline passes between its stages. */
module Records {

  /** A regulatory body publishing a block list: its name (its identity), the
      address of the list, and the addresses blocked sites are redirected to. */
  datatype Institution = Institution(name: string, source_url: string, block_ips: seq<string>)

  /** One listed domain and whether the DNS lookup returned an A record. */
  datatype Domain = Domain(domain: string, record_exists: bool)

  /** An institution together with its resolved domains, in list order. */
  datatype InstitutionWithDomains = InstitutionWithDomains(institution: Institution, blocked_domains: seq<Domain>)
}
