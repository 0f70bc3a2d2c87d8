/**
 The way of `--action-size` from the parsed values to the receiving handler: what
 src/common/options/modern/ReceiverOptionsParser.cpp accepts and what the client makes of it.
 */
module ReceiverOptions {
  import opened CppStrings
  import opened Options
  import opened Receiving

  const ACTION_SIZE := "msg-action-size"

  /** The action size a client runs with, or None if `validate` ends the process. */
  function AcceptedSize(table: map<string, string>): Maybe<int> {
    if ACTION_SIZE !in table then Some(1)
    else if Atoi(table[ACTION_SIZE]) < 1 then None
    else Some(Atoi(table[ACTION_SIZE]))
  }

  /** The check of `validate`, and then the client's reading of the same value. */
  method ActionSize(options: Values) returns (size: Maybe<int>)
    ensures size == AcceptedSize(options.table)
    ensures size.Some? ==> size.value >= 1
  {
    if options.IsSet(ACTION_SIZE) && Atoi(options.table[ACTION_SIZE]) < 1 {
      return None;
    }
    var msgActionSize := 1;
    if options.IsSet(ACTION_SIZE) {
      msgActionSize := Atoi(options.table[ACTION_SIZE]);
    }
    size := Some(msgActionSize);
  }

  /** A decimal argument is accepted exactly if it is positive, and then it is the size; without one the size is 1. */
  lemma DecimalSize(table: map<string, string>, n: int)
    requires INT_MIN <= n <= INT_MAX
    ensures ACTION_SIZE in table && table[ACTION_SIZE] == Decimal(n) ==>
              AcceptedSize(table) == if n < 1 then None else Some(n)
    ensures ACTION_SIZE !in table ==> AcceptedSize(table) == Some(1)
  {
    ScanDecimal(n);
  }

  /** A receiver whose options were accepted never divides by zero and settles floor(n / size) messages. */
  lemma AcceptedOptionsNeverFault(table: map<string, string>, c: Config, events: seq<Event>)
    requires AcceptedSize(table) == Some(c.actionSize)
    ensures var s := Run(c, events);
            && s.status != Faulted
            && |s.settled| ==
               if c.action == "ack" || c.action == "reject" || c.action == "release" then s.received / c.actionSize else 0
  {
    hide Run, Arrivals, Multiples;
    ReceiverFaultsIff(c, events);
    ReceiverAccounts(c, events);
    ReceiverSettles(c, events);
  }
}
