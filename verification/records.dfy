/** A return request as stored in the `retur` table, and the literals the handlers use. */
module Records {

  /** One row of the table. `id` is the primary key; the other fields are free text. */
  datatype Retur = Retur(
    id: int,
    barang: string,        // the returned item
    alasan: string,        // the reason for the return
    status: string,        // one of Pending, Approved, Rejected below
    pengembalian: string   // the resolution: "barang" (replacement) or "uang" (refund), or as supplied
  )

  const Pending: string := "Dalam Proses"
  const Approved: string := "Disetujui"
  const Rejected: string := "Tidak Disetujui"

  const ResolutionItem: string := "barang"
  const ResolutionMoney: string := "uang"

  /** The only resolutions approve accepts. */
  predicate ValidResolution(p: string)
  {
    p == ResolutionItem || p == ResolutionMoney
  }

  /** The table is keyed by each row's own `id` column. */
  predicate Keyed(db: map<int, Retur>)
  {
    forall k :: k in db ==> db[k].id == k
  }
}
