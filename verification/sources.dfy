/** The registry rows the core reads (`source_metadata` and
    `column_metadata`): a provisioned data source and its columns. */
module Sources {
  import opened Wrappers

  /** One provisioned column: the sanitised physical name, the label shown
      to agents, the upper-cased data type and the screen-pop flag. */
  datatype ColumnMeta = ColumnMeta(
    physicalName: string,
    displayName: string,
    dataType: string,
    isUniqueId: bool)

  /** A provisioned source; `columns` are in provisioning order. */
  datatype Source = Source(
    id: nat,
    projectName: string,
    tableName: string,
    screenPopUrlTemplate: Option<string>,
    columns: seq<ColumnMeta>)
}
