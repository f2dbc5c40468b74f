/** The optional value used throughout the model: a heatmap placeholder cell, an
    optional habit filter, the habit being edited, a parse that can fail. */
module Options {

  datatype Option<+T> = None | Some(value: T)
}
