/** Python's `None`-or-value, as used for the seed column of `draw_soil` and
    for the recorded hit position of the simulation. */
module Maybe {

  datatype Option<+T> = None | Some(value: T)
}
