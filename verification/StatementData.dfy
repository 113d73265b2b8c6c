/** Canonical statement rows and the snapshot that holds them. */
module StatementData {
  import opened Wrappers
  import opened Numbers

  datatype LedgerBalance = LedgerBalance(account: string, amount: i64)

  datatype StatementRow = StatementRow(
    version: nat,
    date: string,
    amount: i64,
    currency: string,
    description: Option<string>,
    identity: string,
    sourceRef: string,
    ordinal: nat,
    profileId: string,
    original: string
  )

  datatype Snapshot = Snapshot(
    cutoff: string,
    sourceRef: string,
    profileId: string,
    rows: seq<StatementRow>,
    total: i64,
    ledgerBalances: seq<LedgerBalance>
  )

  function Identity(row: StatementRow): string { row.identity }
  function RowAmount(row: StatementRow): int { row.amount }
}
