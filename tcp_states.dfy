/** The kernel's TCP connection states, as the `TCP_STATE` table in
    check_netstat/check_netstat.py names the two-digit codes of column 3 of
    `/proc/net/tcp` and `/proc/net/tcp6`. */
module TcpStates {
  import opened Wrappers

  /** `TCP_STATE`: the eleven codes the kernel writes, upper-case hexadecimal. */
  const TcpState: map<string, string> := map[
    "01" := "ESTABLISHED",
    "02" := "SYN_SENT",
    "03" := "SYN_RECV",
    "04" := "FIN_WAIT1",
    "05" := "FIN_WAIT2",
    "06" := "TIME_WAIT",
    "07" := "CLOSE",
    "08" := "CLOSE_WAIT",
    "09" := "LAST_ACK",
    "0A" := "LISTEN",
    "0B" := "CLOSING"
  ]

  /** A code the table knows: `0` followed by one of the digits 1..9, A or B. */
  predicate IsStateCode(code: string)
  {
    |code| == 2 && code[0] == '0' && ('1' <= code[1] <= '9' || code[1] == 'A' || code[1] == 'B')
  }

  /** `TCP_STATE[code]`: the state name, or the dictionary miss that ends the scan. */
  function StateName(code: string): (r: Result<string>)
    ensures r.Success? <==> IsStateCode(code)
    ensures r.Success? ==> r.value in TcpState.Values
    ensures r.Failure? ==> r.error == KeyError(code)
  {
    StateCodes();
    if code in TcpState then Success(TcpState[code]) else Failure(KeyError(code))
  }

  /** The table has exactly the eleven codes `01`..`0B`. */
  lemma StateCodes()
    ensures forall code :: code in TcpState <==> IsStateCode(code)
  {
    forall code | IsStateCode(code)
      ensures code in TcpState
    {
      assert code == ['0', code[1]];
      match code[1]
      case '1' => assert code == "01";
      case '2' => assert code == "02";
      case '3' => assert code == "03";
      case '4' => assert code == "04";
      case '5' => assert code == "05";
      case '6' => assert code == "06";
      case '7' => assert code == "07";
      case '8' => assert code == "08";
      case '9' => assert code == "09";
      case 'A' => assert code == "0A";
      case _ => assert code == "0B";
    }
  }

  /** Eleven entries. */
  lemma StateCount()
    ensures |TcpState| == 11
  {
  }

  /** No two codes share a name. */
  lemma StateNamesDistinct()
    ensures forall c1, c2 :: c1 in TcpState && c2 in TcpState && TcpState[c1] == TcpState[c2] ==> c1 == c2
  {
  }

  /** The table never yields `CLOSED` (the aggregator's dead key) nor the UDP
      placeholder `Stateless`; it does yield `CLOSING`, which has no counter. */
  lemma StateNamesExclude()
    ensures "CLOSED" !in TcpState.Values && "Stateless" !in TcpState.Values
    ensures TcpState["0B"] == "CLOSING"
  {
  }
}
