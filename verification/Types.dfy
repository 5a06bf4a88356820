/** What the hash ring, replication and versioning share. */
module Types {
  /** A node's identifier. */
  type Node = string
}
