/**
 * The game services the help screen calls but does not implement: key
 * bindings, translation, colour tags, hotkey derivation, text width and the
 * resolved data paths. They are parameters of the model, gathered in `Env`.
 */
module Externals {

  /** The nine actions of the movement diagram (`ACTION_MOVE_*` and `ACTION_PAUSE`). */
  datatype MoveAction =
    | MoveForthLeft | MoveForth | MoveForthRight
    | MoveLeft | Pause | MoveRight
    | MoveBackLeft | MoveBack | MoveBackRight

  /**
   * `action_ident` on the movement actions: the identifiers the diagram
   * template spells in its placeholders.
   */
  function ActionIdent(a: MoveAction): (id: string)
    ensures |id| > 0 && '<' !in id && '>' !in id
  {
    match a
    case MoveForthLeft => "LEFTUP"
    case MoveForth => "UP"
    case MoveForthRight => "RIGHTUP"
    case MoveLeft => "LEFT"
    case Pause => "pause"
    case MoveRight => "RIGHT"
    case MoveBackLeft => "LEFTDOWN"
    case MoveBack => "DOWN"
    case MoveBackRight => "RIGHTDOWN"
  }

  /**
   * The services, as functions of their arguments:
   *  - translate:      `_()`
   *  - noteColorNames: `get_note_color_names()`, (colour id, label) pairs in iteration order
   *  - colorizeNote:   `colorize(id, get_note_color(id))`
   *  - keysBoundTo:    `keys_bound_to(action)`
   *  - gamePaths:      `resolved_game_paths()`
   *  - hotkeysOf:      `get_hotkeys(name)`
   *  - describeKeys:   `press_x(look_up_action(id), "", "")`
   *  - textWidth:      `utf8_width`
   */
  datatype Env = Env(
    translate: string -> string,
    noteColorNames: seq<(string, string)>,
    colorizeNote: string -> string,
    keysBoundTo: MoveAction -> seq<char>,
    gamePaths: string,
    hotkeysOf: string -> seq<string>,
    describeKeys: string -> string,
    textWidth: string -> int
  )
}
