/** The message that a client sends and a server reads. */
module SportsLines {
  datatype Request = Request(period: nat, sports: seq<string>)
}
