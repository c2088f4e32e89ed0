/** The `protocols` table behind `DatabaseManager`
    of enhanced_protocol_scraper.py, held in memory: one row per
    `(year, number)` key, as the table's primary key demands. */
module Store {
  import opened Text
  import opened Dates

  /** The `Arquivado` column: the scraper and the archival pass only ever
      write 'yes' and 'no'. */
  datatype Flag = Yes | No

  /** One row: `content`, `Arquivado`, `Last_update` (a `yyyy-mm-dd`
      string). */
  datatype Row = Row(content: string, arquivado: Flag, lastUpdate: string)

  type Key = (int, int)

  /** The default of `get_protocols_to_update`'s `days` ... */
  const DefaultStaleWindowDays: nat := 90
  /** ... and the window the sync run actually passes. */
  const StaleWindowDays: nat := 60

  class ProtocolStore {
    var rows: map<Key, Row>

    /** A new database: `init_db` creating the table, which starts empty. */
    constructor ()
      ensures rows == map[]
    {
      rows := map[];
    }

    /** `get_existing_protocols(year)`: the numbers stored for the year. */
    method GetExistingProtocols(year: int) returns (r: set<int>)
      ensures forall n :: n in r <==> (year, n) in rows
    {
      r := set k | k in rows.Keys && k.0 == year :: k.1;
    }

    /** `get_protocols_to_update(year, days)`: the numbers of the year's
        rows that are still open and whose `Last_update` is on or after
        the day `days` days before `today`, compared as TEXT. */
    method GetProtocolsToUpdate(year: int, today: Date, days: nat) returns (r: set<int>)
      requires ValidDate(today) && Ordinal(today) > days
      ensures forall n :: n in r <==>
        (year, n) in rows && rows[(year, n)].arquivado == No
        && LexLe(FormatDate(DaysBefore(today, days)), rows[(year, n)].lastUpdate)
    {
      var cutoff := FormatDate(DaysBefore(today, days));
      r := set k | k in rows.Keys && k.0 == year && rows[k].arquivado == No && LexLe(cutoff, rows[k].lastUpdate) :: k.1;
    }

    /** `insert_protocol`: INSERT OR REPLACE, so the whole row is
        replaced, whatever it held before (an archived row can become open
        again), and every other row is untouched. */
    method InsertProtocol(year: int, number: int, content: string, arquivado: Flag, lastUpdate: string)
      modifies this
      ensures rows == old(rows)[(year, number) := Row(content, arquivado, lastUpdate)]
    {
      rows := rows[(year, number) := Row(content, arquivado, lastUpdate)];
    }
  }

  /** The rows still due for a refresh are among the stored ones: they are
      open and recent, so every other stored row is left alone by the
      planner. */
  lemma StaleAreExisting(rows: map<Key, Row>, year: int, existing: set<int>, stale: set<int>, cutoff: string)
    requires forall n :: n in existing <==> (year, n) in rows
    requires forall n :: n in stale <==>
      (year, n) in rows && rows[(year, n)].arquivado == No && LexLe(cutoff, rows[(year, n)].lastUpdate)
    ensures stale <= existing
    ensures forall n :: n in existing && n !in stale ==>
      rows[(year, n)].arquivado == Yes || LexLess(rows[(year, n)].lastUpdate, cutoff)
  {
    forall n | n in stale
      ensures n in existing
    {
    }
    forall n | n in existing && n !in stale
      ensures rows[(year, n)].arquivado == Yes || LexLess(rows[(year, n)].lastUpdate, cutoff)
    {
      var lu := rows[(year, n)].lastUpdate;
      if rows[(year, n)].arquivado == No && lu != cutoff {
        LexLessConnected(lu, cutoff);
      }
    }
  }
}
