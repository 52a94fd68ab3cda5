/** The resolver's artifact and dependency types. Nothing of them is used but
    their identity, so they are kept as empty classes: a reference may be null
    where the Java code admits null. */
module Aether {
  class Artifact {
  }

  class Dependency {
  }
}
