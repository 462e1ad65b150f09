/** A session as a sequence of the operations that change the store, applied
    one after another to the store the program starts with. */
module Session {
  import opened Entries
  import opened PhoneBook
  import opened Persistence

  datatype Command =
    | Add(nationalId: string, name: string, phoneNumber: string)
    | Update(nationalId: string, newName: string, newPhoneNumber: string)
    | Delete(nationalId: string)
    | Load(source: LoadSource)

  /** The store after one command. */
  function Step(s: Store, c: Command): Store
  {
    match c
    case Add(id, name, phone) => AddEntry(s, id, name, phone).store
    case Update(id, name, phone) => UpdateEntry(s, id, name, phone).store
    case Delete(id) => DeleteEntry(s, id).store
    case Load(source) => LoadPhoneBook(s, source).store
  }

  /** The store after every command of `cs`, in order. */
  function Run(s: Store, cs: seq<Command>): Store
    decreases |cs|
  {
    if cs == [] then s else Run(Step(s, cs[0]), cs[1..])
  }

  /** The phone book starts empty. */
  function Initial(): (s: Store)
    ensures Valid(s) && |s| == 0
  {
    map[]
  }

  /** No sequence of commands breaks the store invariant: every key stays
      non-empty and equal to the national ID of its entry. */
  lemma {:induction false} RunKeepsValid(s: Store, cs: seq<Command>)
    requires Valid(s)
    ensures Valid(Run(s, cs))
    decreases |cs|
  {
    if cs != [] {
      RunKeepsValid(Step(s, cs[0]), cs[1..]);
    }
  }

  /** Every store a session reaches satisfies the invariant. */
  lemma SessionKeepsValid(cs: seq<Command>)
    ensures Valid(Run(Initial(), cs))
  {
    RunKeepsValid(Initial(), cs);
  }
}
