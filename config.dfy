/** The parts of the cluster configuration that the image-loading path reads. */
module Config {

  /** One configured node: its role, its node image and the images to load into it. */
  datatype Node = Node(role: string, image: string, loadImages: seq<string>)

  /** A cluster configuration: its name and its nodes, in configuration order. */
  datatype Cluster = Cluster(name: string, nodes: seq<Node>)
}
