/** DNS messages, as far as the cache and the query pipeline look into them. */
module Dns {
  const TYPE_A: nat := 1
  const TYPE_AAAA: nat := 28

  datatype Question = Question(name: string, qtype: nat, qclass: nat)

  /** What a record holds: an address, or anything else. */
  datatype Data = Address(v6: bool, ip: string) | OtherData(text: string)
  datatype Record = Record(data: Data, ttl: nat)

  /** The answer section, and the rest of the message. */
  datatype Message = Message(body: string, answer: seq<Record>)
}
