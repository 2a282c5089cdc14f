/** The configuration records of pacm/main.go:18-56, as read from JSON or YAML. */
module Config {

  /** One file-system target of a package: `path` is `<walk root>/<glob mask>`. */
  datatype Target = Target(path: string, exclude: string)

  /** A package requested by name and version constraint. */
  datatype Packet = Packet(name: string, ver: string)

  /** The configuration of `create`: what goes into one package archive. */
  datatype PackageConfig = PackageConfig(name: string, ver: string, targets: seq<Target>, packets: seq<Packet>)

  /** The configuration of `update`: the packages to fetch. */
  datatype PackagesConfig = PackagesConfig(packages: seq<Packet>)
}
