// The C sources' bytes, where only their bits matter.
module Octets {
  type byte = bv8
}
