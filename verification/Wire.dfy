/** The item an agent receives. */
module Wire {
  import opened Basics

  datatype AgentItem = AgentItem(kind: string, sender: string, path: Option<string>, text: Option<string>)
}
