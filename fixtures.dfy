/** The reference data that a mining payout is posted against (fixtures.go). */
module Fixtures {
  import opened Records

  const EthMain := Account(1330, "ETH-Main")

  const ElectricBill := Account(2350, "Electric Bill")

  /** The tracked asset; its positive ID makes posting keep its lines. */
  const Ether := Item(1, "Ether")

  const ElectricCompany := Vendor(1, "Electric Company")
}
