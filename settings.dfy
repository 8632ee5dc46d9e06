/** The values the preview controller works on. The settings module of the
    importer defines them; only the fields the controller reads are kept. */
module Settings {

  datatype Option<+T> = None | Some(value: T)

  /** One editor setting: its key and its value. Values are kept as the text
      the pick-list shows for them. */
  datatype Setting = Setting(name: string, value: string)

  /** A source (Sublime) setting paired with the destination (VS Code)
      setting it maps to. `isDuplicate` says that the destination already
      has a value for that key, and `duplicateVscodeSetting`, when present,
      is the existing destination setting. */
  datatype MappedSetting = MappedSetting(
    sublime: Setting,
    vscode: Setting,
    isDuplicate: bool,
    duplicateVscodeSetting: Option<Setting>)
}
